/** The merge with the metadata guard the table's layout calls for. The
    table keeps an entry's "placeholders" beside its locale values, at
    entry level; the guard at add_coupon_localizations.py:500 looks inside
    the locale value instead. Here the `@<key>` entry is written from the
    entry-level "placeholders" (or, failing that, from a dict locale value's
    own field, as before), and a string value is never indexed. */
module Intended {
  import opened Documents
  import opened Merger
  import opened MergeProperties

  /** The placeholders declaration the `@<key>` entry should carry: the
      entry's own, else the "placeholders" field of a dict locale value. */
  function IntendedPlaceholders(e: Entry, lang: string): (r: Option<Json>)
    requires lang in e.locales
    ensures e.placeholders.Some? ==> r == e.placeholders
    ensures r.None? <==> e.placeholders.None? && !WritesMetadata(e, lang)
  {
    if e.placeholders.Some? then e.placeholders
    else
      match e.locales[lang]
      case Text(_) => None
      case Structured(f) => if PlaceholdersField in f then Some(f[PlaceholdersField]) else None
  }

  /** One turn of the corrected loop body. */
  function IntendedAddKey(d: Doc, lang: string, key: string, e: Entry): (r: Result<Merged>)
    requires d.Valid()
    ensures key in d.values ==> r == Ok(Merged(d, 0))
    ensures key !in d.values ==> (r.Ok? <==> lang in e.locales)
    ensures r.Ok? ==> r.value.doc.Valid()
  {
    if key in d.values then Ok(Merged(d, 0))
    else if lang !in e.locales then Err(MissingLocale(key, lang))
    else
      var d1 := Put(d, key, InsertedValue(e.locales[lang]));
      match IntendedPlaceholders(e, lang)
      case None => Ok(Merged(d1, 1))
      case Some(p) => Ok(Merged(Put(d1, MetadataKey(key), MetadataEntry(p)), 1))
  }

  /** The corrected loop over the table, as a function. */
  function IntendedMerge(d: Doc, lang: string, table: Table): (r: Result<Merged>)
    requires d.Valid()
    ensures r.Ok? ==> r.value.doc.Valid()
    decreases |table|
  {
    if table == [] then Ok(Merged(d, 0))
    else
      match IntendedAddKey(d, lang, table[0].0, table[0].1)
      case Err(e) => Err(e)
      case Ok(step) => AddCount(IntendedMerge(step.doc, lang, table[1..]), step.count)
  }

  /** The entry rewritten so that the as-written step produces the intended
      result: its locale value becomes a dict with the stored value under
      "text" and the intended placeholders under "placeholders". */
  function Normalized(e: Entry, lang: string): Entry {
    if lang !in e.locales then e
    else
      var meta: map<string, Json> :=
        match IntendedPlaceholders(e, lang)
        case None => map[]
        case Some(p) => map[PlaceholdersField := p];
      Entry(e.locales[lang := Structured(map[TextField := InsertedValue(e.locales[lang])] + meta)], e.placeholders)
  }

  /** Every entry of the table normalized, keys and order unchanged. */
  function NormalizedTable(table: Table, lang: string): (r: Table)
    ensures |r| == |table|
    ensures forall i :: 0 <= i < |table| ==> r[i] == (table[i].0, Normalized(table[i].1, lang))
  {
    if table == [] then []
    else [(table[0].0, Normalized(table[0].1, lang))] + NormalizedTable(table[1..], lang)
  }

  /** The corrected step is the as-written step on the normalized entry. */
  lemma IntendedStepIsNormalizedStep(d: Doc, lang: string, key: string, e: Entry)
    requires d.Valid()
    ensures IntendedAddKey(d, lang, key, e) == AddKey(d, lang, key, Normalized(e, lang))
  {
    if key !in d.values && lang in e.locales {
      var n := Normalized(e, lang);
      var f := n.locales[lang].fields;
      assert TextField != PlaceholdersField by {
        assert |TextField| != |PlaceholdersField|;
      }
      assert TextField in f && f[TextField] == InsertedValue(e.locales[lang]);
      assert PlaceholdersField in f <==> IntendedPlaceholders(e, lang).Some?;
    }
  }

  /** The corrected merge is the as-written merge over the normalized table,
      so every property proved about Merge carries over. */
  lemma {:induction false} IntendedIsNormalizedMerge(d: Doc, lang: string, table: Table)
    requires d.Valid()
    ensures IntendedMerge(d, lang, table) == Merge(d, lang, NormalizedTable(table, lang))
    decreases |table|
  {
    if table != [] {
      var n := NormalizedTable(table, lang);
      assert n[0] == (table[0].0, Normalized(table[0].1, lang));
      assert n[1..] == NormalizedTable(table[1..], lang);
      IntendedStepIsNormalizedStep(d, lang, table[0].0, table[0].1);
      var first := IntendedAddKey(d, lang, table[0].0, table[0].1);
      if first.Ok? {
        IntendedIsNormalizedMerge(first.value.doc, lang, table[1..]);
      }
    }
  }

  /** Normalizing keeps the table's keys distinct and free of `@`. */
  lemma NormalizedKeys(table: Table, lang: string)
    requires DistinctKeys(table) && NoMetadataKeys(table)
    ensures DistinctKeys(NormalizedTable(table, lang)) && NoMetadataKeys(NormalizedTable(table, lang))
  {
    var n := NormalizedTable(table, lang);
    forall i, j | 0 <= i < j < |n|
      ensures n[i].0 != n[j].0
    {
      assert n[i].0 == table[i].0 && n[j].0 == table[j].0;
    }
    forall i | 0 <= i < |n|
      ensures !IsMetadata(n[i].0)
    {
      assert n[i].0 == table[i].0;
    }
  }

  /** The corrected merge fails only on a missing locale: a string that
      contains "placeholders" no longer makes it raise. */
  lemma IntendedMergeSucceedsIff(d: Doc, lang: string, table: Table)
    requires d.Valid() && DistinctKeys(table) && NoMetadataKeys(table)
    ensures IntendedMerge(d, lang, table).Ok? <==>
      forall i :: 0 <= i < |table| && table[i].0 !in d.values ==> lang in table[i].1.locales
  {
    var n := NormalizedTable(table, lang);
    IntendedIsNormalizedMerge(d, lang, table);
    NormalizedKeys(table, lang);
    MergeSucceedsIff(d, lang, n);
    forall i | 0 <= i < |table|
      ensures AddsWithoutError(n[i].1, lang) <==> lang in table[i].1.locales
    {
      assert n[i] == (table[i].0, Normalized(table[i].1, lang));
    }
  }

  /** What the as-written step reads from a normalized entry: the stored
      value, and the intended placeholders under "placeholders". */
  lemma NormalizedValue(e: Entry, lang: string)
    requires lang in e.locales
    ensures lang in Normalized(e, lang).locales
    ensures InsertedValue(Normalized(e, lang).locales[lang]) == InsertedValue(e.locales[lang])
    ensures e.placeholders.Some? ==>
      && WritesMetadata(Normalized(e, lang), lang)
      && MetadataFor(Normalized(e, lang), lang) == MetadataEntry(e.placeholders.value)
  {
    assert TextField != PlaceholdersField by {
      assert |TextField| != |PlaceholdersField|;
    }
  }

  /** The normalized entry carries "placeholders" exactly when the entry
      has an intended declaration. */
  lemma NormalizedWritesMetadata(e: Entry, lang: string)
    ensures WritesMetadata(Normalized(e, lang), lang) <==>
      lang in e.locales && IntendedPlaceholders(e, lang).Some?
  {
    if lang in e.locales {
      assert TextField != PlaceholdersField by {
        assert |TextField| != |PlaceholdersField|;
      }
    }
  }

  /** `k` is the key of the table pair `p`, or its `@<key>` written because
      the key was absent from `d` and the entry has a placeholders
      declaration, at entry level or in a dict value. */
  ghost predicate IntendedNewKeyFrom(d: Doc, lang: string, p: (string, Entry), k: string) {
    k == p.0 || (k == MetadataKey(p.0) && p.0 !in d.values && lang in p.1.locales && IntendedPlaceholders(p.1, lang).Some?)
  }

  /** Every key the corrected merge adds, in any document and for any
      table, is a table key or the `@<key>` of an absent entry that declares
      placeholders; a string value without a declaration gets no `@<key>`,
      whatever the string contains. */
  lemma IntendedNewKeysComeFromTable(d: Doc, lang: string, table: Table, m: Merged)
    requires d.Valid() && IntendedMerge(d, lang, table) == Ok(m)
    ensures forall k :: k in m.doc.values && k !in d.values ==>
      exists i :: 0 <= i < |table| && IntendedNewKeyFrom(d, lang, table[i], k)
  {
    var n := NormalizedTable(table, lang);
    IntendedIsNormalizedMerge(d, lang, table);
    NewKeysComeFromTable(d, lang, n, m);
    forall k | k in m.doc.values && k !in d.values
      ensures exists i :: 0 <= i < |table| && IntendedNewKeyFrom(d, lang, table[i], k)
    {
      var i :| 0 <= i < |n| && NewKeyFrom(d, lang, n[i], k);
      assert n[i] == (table[i].0, Normalized(table[i].1, lang));
      NormalizedWritesMetadata(table[i].1, lang);
      assert IntendedNewKeyFrom(d, lang, table[i], k);
    }
  }

  /** The intended behaviour: for every table key absent before the merge,
      the document gets the locale's value and, when the entry declares
      placeholders, an `@<key>` entry holding exactly that declaration. */
  lemma IntendedMergeWritesPlaceholders(d: Doc, lang: string, table: Table, m: Merged, i: nat)
    requires d.Valid() && IntendedMerge(d, lang, table) == Ok(m)
    requires DistinctKeys(table) && NoMetadataKeys(table)
    requires i < |table| && table[i].0 !in d.values
    ensures lang in table[i].1.locales && table[i].0 in m.doc.values
    ensures m.doc.values[table[i].0] == InsertedValue(table[i].1.locales[lang])
    ensures table[i].1.placeholders.Some? ==>
      && MetadataKey(table[i].0) in m.doc.values
      && m.doc.values[MetadataKey(table[i].0)] == MetadataEntry(table[i].1.placeholders.value)
  {
    var n := NormalizedTable(table, lang);
    var e := table[i].1;
    assert Merge(d, lang, n) == Ok(m) by {
      IntendedIsNormalizedMerge(d, lang, table);
    }
    NormalizedKeys(table, lang);
    assert n[i] == (table[i].0, Normalized(e, lang));
    MergeInsertsLocaleValue(d, lang, n, m, i);
    assert lang in e.locales by {
      assert Normalized(e, lang) == e || lang in e.locales;
    }
    NormalizedValue(e, lang);
    if e.placeholders.Some? {
      MetadataWrittenForLocaleDict(d, lang, n, m, i);
    }
  }

  /** Where the as-written merge succeeds on a table with no entry-level
      placeholders, the corrected merge gives the same document and count. */
  lemma {:induction false} IntendedAgreesWithoutEntryPlaceholders(d: Doc, lang: string, table: Table)
    requires d.Valid() && Merge(d, lang, table).Ok?
    requires forall i :: 0 <= i < |table| ==> table[i].1.placeholders.None?
    ensures IntendedMerge(d, lang, table) == Merge(d, lang, table)
    decreases |table|
  {
    if table != [] {
      var key := table[0].0;
      var e := table[0].1;
      var first := AddKey(d, lang, key, e);
      assert first.Ok?;
      assert IntendedAddKey(d, lang, key, e) == first by {
        if key !in d.values {
          var step := first.value;
          AddKeyEffect(d, lang, key, e, step);
          if WritesMetadata(e, lang) {
            assert IntendedPlaceholders(e, lang) == Some(e.locales[lang].fields[PlaceholdersField]);
          } else {
            assert IntendedPlaceholders(e, lang).None?;
          }
        }
      }
      forall i | 0 <= i < |table[1..]|
        ensures table[1..][i].1.placeholders.None?
      {
        assert table[1..][i] == table[i + 1];
      }
      IntendedAgreesWithoutEntryPlaceholders(first.value.doc, lang, table[1..]);
    }
  }

  /** The corrected merge stores a string value under its key, whatever the
      string contains, and writes nothing else. */
  lemma IntendedStoresAnyText(key: string, t: string)
    ensures IntendedMerge(EmptyDoc, "en", [(key, Entry(map["en" := Text(t)], None))]) ==
      Ok(Merged(Put(EmptyDoc, key, Str(t)), 1))
  {
    var e := Entry(map["en" := Text(t)], None);
    var d1 := Put(EmptyDoc, key, Str(t));
    assert IntendedAddKey(EmptyDoc, "en", key, e) == Ok(Merged(d1, 1)) by {
      assert IntendedPlaceholders(e, "en").None?;
    }
    assert IntendedMerge(d1, "en", [(key, e)][1..]) == Ok(Merged(d1, 0)) by {
      assert [(key, e)][1..] == [];
    }
  }
}
