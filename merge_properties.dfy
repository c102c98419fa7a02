/** What the merge of `add_keys_to_file` guarantees, proved about Merge (and
    so, through its postcondition, about the loop MergeDocument). */
module MergeProperties {
  import opened Documents
  import opened Merger

  /** The table is a dict: no key occurs twice. */
  ghost predicate DistinctKeys(table: Table) {
    forall i, j :: 0 <= i < j < |table| ==> table[i].0 != table[j].0
  }

  /** No table key is itself an `@` metadata key. */
  ghost predicate NoMetadataKeys(table: Table) {
    forall i :: 0 <= i < |table| ==> !IsMetadata(table[i].0)
  }

  /** The table keys absent from `present`, in table order: the reference
      for what the merge adds. */
  function Missing(present: map<string, Json>, table: Table): (r: seq<string>)
    ensures |r| <= |table|
    ensures forall k :: k in r ==> k !in present
  {
    if table == [] then []
    else (if table[0].0 in present then [] else [table[0].0]) + Missing(present, table[1..])
  }

  /** Only the presence of the table's keys decides Missing. */
  lemma {:induction false} MissingDependsOnPresence(p: map<string, Json>, q: map<string, Json>, table: Table)
    requires forall i :: 0 <= i < |table| ==> (table[i].0 in p <==> table[i].0 in q)
    ensures Missing(p, table) == Missing(q, table)
  {
    if table != [] {
      assert table[0].0 in p <==> table[0].0 in q;
      MissingDependsOnPresence(p, q, table[1..]);
    }
  }

  /** Splits a successful merge of a non-empty table into its first step
      and the merge of the rest of the table. */
  lemma MergeFirst(d: Doc, lang: string, table: Table, m: Merged) returns (step: Merged, rest: Merged)
    requires d.Valid() && table != [] && Merge(d, lang, table) == Ok(m)
    ensures AddKey(d, lang, table[0].0, table[0].1) == Ok(step)
    ensures step.doc.Valid() && Merge(step.doc, lang, table[1..]) == Ok(rest)
    ensures m == Merged(rest.doc, rest.count + step.count)
  {
    step := AddKey(d, lang, table[0].0, table[0].1).value;
    rest := Merge(step.doc, lang, table[1..]).value;
  }

  /** Existing keys are never lost, the old key order is kept as a prefix,
      and every existing translation key keeps exactly its old value: the
      guard `key not in data` never overwrites. (Only an `@` key can be
      replaced, by a metadata write.) */
  lemma {:induction false} MergeKeepsExisting(d: Doc, lang: string, table: Table, m: Merged)
    requires d.Valid() && Merge(d, lang, table) == Ok(m)
    ensures d.order <= m.doc.order
    ensures forall k :: k in d.values ==> k in m.doc.values
    ensures forall k :: k in d.values && !IsMetadata(k) ==> m.doc.values[k] == d.values[k]
    decreases |table|
  {
    if table != [] {
      var step, rest := MergeFirst(d, lang, table, m);
      AddKeyEffect(d, lang, table[0].0, table[0].1, step);
      MergeKeepsExisting(step.doc, lang, table[1..], rest);
      assert rest.doc == m.doc;
      PrefixTransitive(d.order, step.doc.order, m.doc.order);
      forall k | k in d.values && !IsMetadata(k)
        ensures m.doc.values[k] == d.values[k]
      {
        assert k != MetadataKey(table[0].0);
      }
    }
  }

  /** `k` is the `@<key>` of a table key absent from `d` whose locale value
      is a dict with a "placeholders" field: the one kind of existing key
      the loop may overwrite. */
  ghost predicate Overwritten(d: Doc, lang: string, table: Table, k: string) {
    exists i :: 0 <= i < |table| && table[i].0 !in d.values && WritesMetadata(table[i].1, lang)
      && k == MetadataKey(table[i].0)
  }

  /** Every existing key that no metadata write targets, `@` keys included,
      keeps exactly its old value. */
  lemma {:induction false} MergeKeepsUntouched(d: Doc, lang: string, table: Table, m: Merged)
    requires d.Valid() && Merge(d, lang, table) == Ok(m)
    ensures forall k :: k in d.values && !Overwritten(d, lang, table, k) ==>
      k in m.doc.values && m.doc.values[k] == d.values[k]
    decreases |table|
  {
    if table != [] {
      var key := table[0].0;
      var step, rest := MergeFirst(d, lang, table, m);
      AddKeyEffect(d, lang, key, table[0].1, step);
      MergeKeepsUntouched(step.doc, lang, table[1..], rest);
      forall k | k in d.values && !Overwritten(d, lang, table, k)
        ensures k in m.doc.values && m.doc.values[k] == d.values[k]
      {
        assert step.doc.values[k] == d.values[k] by {
          if k == MetadataKey(key) && key !in d.values {
            assert !WritesMetadata(table[0].1, lang);
            assert k != key by {
              assert |k| == |key| + 1;
            }
          }
        }
        forall j | 0 <= j < |table[1..]| && table[1..][j].0 !in step.doc.values && WritesMetadata(table[1..][j].1, lang)
          ensures k != MetadataKey(table[1..][j].0)
        {
          assert table[1..][j] == table[j + 1];
        }
      }
    }
  }

  /** Completeness: after a successful merge every key of the table is in
      the document. */
  lemma {:induction false} MergeCoversTable(d: Doc, lang: string, table: Table, m: Merged)
    requires d.Valid() && Merge(d, lang, table) == Ok(m)
    ensures forall i :: 0 <= i < |table| ==> table[i].0 in m.doc.values
    decreases |table|
  {
    if table != [] {
      var step, rest := MergeFirst(d, lang, table, m);
      MergeCoversTable(step.doc, lang, table[1..], rest);
      assert table[0].0 in m.doc.values by {
        MergeKeepsExisting(step.doc, lang, table[1..], rest);
      }
      forall i | 0 < i < |table|
        ensures table[i].0 in m.doc.values
      {
        assert table[1..][i - 1] == table[i];
      }
    }
  }

  /** A merge over a document that already holds every table key adds
      nothing and changes nothing. */
  lemma {:induction false} MergeOfCompleteDoc(d: Doc, lang: string, table: Table)
    requires d.Valid()
    requires forall i :: 0 <= i < |table| ==> table[i].0 in d.values
    ensures Merge(d, lang, table) == Ok(Merged(d, 0))
  {
    if table != [] {
      assert table[0].0 in d.values;
      forall i | 0 <= i < |table[1..]|
        ensures table[1..][i].0 in d.values
      {
        assert table[1..][i] == table[i + 1];
      }
      MergeOfCompleteDoc(d, lang, table[1..]);
    }
  }

  /** Idempotence: merging the merged document again adds 0 keys and
      leaves it as it is. */
  lemma MergeIdempotent(d: Doc, lang: string, table: Table, m: Merged)
    requires d.Valid() && Merge(d, lang, table) == Ok(m)
    ensures Merge(m.doc, lang, table) == Ok(Merged(m.doc, 0))
  {
    MergeCoversTable(d, lang, table, m);
    MergeOfCompleteDoc(m.doc, lang, table);
  }

  /** With distinct, non-`@` table keys, the first step changes the
      presence of no later table key. */
  lemma PresenceAfterFirst(d: Doc, lang: string, table: Table, step: Merged)
    requires d.Valid() && table != [] && DistinctKeys(table) && NoMetadataKeys(table)
    requires AddKey(d, lang, table[0].0, table[0].1) == Ok(step)
    ensures forall i :: 1 <= i < |table| ==> (table[i].0 in step.doc.values <==> table[i].0 in d.values)
  {
    AddKeyEffect(d, lang, table[0].0, table[0].1, step);
    forall i | 1 <= i < |table|
      ensures table[i].0 in step.doc.values <==> table[i].0 in d.values
    {
      assert table[i].0 != table[0].0;
      assert !IsMetadata(table[i].0);
    }
  }

  lemma TailKeys(table: Table)
    requires table != [] && DistinctKeys(table) && NoMetadataKeys(table)
    ensures DistinctKeys(table[1..]) && NoMetadataKeys(table[1..])
  {
    TailDistinct(table);
    forall i | 0 <= i < |table[1..]|
      ensures !IsMetadata(table[1..][i].0)
    {
      assert table[1..][i] == table[i + 1];
    }
  }

  /** For a key absent before the merge, the stored value is the locale's
      string, or for a dict its "text" field or the dict itself. */
  lemma {:induction false} MergeInsertsLocaleValue(d: Doc, lang: string, table: Table, m: Merged, i: nat)
    requires d.Valid() && Merge(d, lang, table) == Ok(m)
    requires DistinctKeys(table) && NoMetadataKeys(table)
    requires i < |table| && table[i].0 !in d.values
    ensures lang in table[i].1.locales
    ensures table[i].0 in m.doc.values && m.doc.values[table[i].0] == InsertedValue(table[i].1.locales[lang])
    decreases |table|
  {
    var step, rest := MergeFirst(d, lang, table, m);
    if i == 0 {
      AddKeyEffect(d, lang, table[0].0, table[0].1, step);
      assert !IsMetadata(table[0].0);
      MergeKeepsExisting(step.doc, lang, table[1..], rest);
    } else {
      assert table[1..][i - 1] == table[i];
      assert table[i].0 !in step.doc.values by {
        PresenceAfterFirst(d, lang, table, step);
      }
      assert DistinctKeys(table[1..]) && NoMetadataKeys(table[1..]) by {
        TailKeys(table);
      }
      MergeInsertsLocaleValue(step.doc, lang, table[1..], rest, i - 1);
    }
  }

  /** The count is exact: it is the number of table keys absent from the
      document before the merge. */
  lemma {:induction false} MergeCountsMissing(d: Doc, lang: string, table: Table, m: Merged)
    requires d.Valid() && Merge(d, lang, table) == Ok(m)
    requires DistinctKeys(table) && NoMetadataKeys(table)
    ensures m.count == |Missing(d.values, table)|
    decreases |table|
  {
    if table != [] {
      var step, rest := MergeFirst(d, lang, table, m);
      PresenceAfterFirst(d, lang, table, step);
      TailKeys(table);
      forall i | 0 <= i < |table[1..]|
        ensures table[1..][i].0 in step.doc.values <==> table[1..][i].0 in d.values
      {
        assert table[1..][i] == table[i + 1];
      }
      MissingDependsOnPresence(step.doc.values, d.values, table[1..]);
      MergeCountsMissing(step.doc, lang, table[1..], rest);
    }
  }

  /** The merge fails exactly when some table key absent from the document
      has no value for the locale, or has a string value that contains
      "placeholders" (a str that the guard then sends to be indexed with a
      str). */
  lemma {:induction false} MergeSucceedsIff(d: Doc, lang: string, table: Table)
    requires d.Valid() && DistinctKeys(table) && NoMetadataKeys(table)
    ensures Merge(d, lang, table).Ok? <==>
      forall i :: 0 <= i < |table| && table[i].0 !in d.values ==> AddsWithoutError(table[i].1, lang)
    decreases |table|
  {
    if table != [] {
      var first := AddKey(d, lang, table[0].0, table[0].1);
      if first.Ok? {
        var step := first.value;
        PresenceAfterFirst(d, lang, table, step);
        TailKeys(table);
        MergeSucceedsIff(step.doc, lang, table[1..]);
        forall i | 0 <= i < |table[1..]|
          ensures table[1..][i] == table[i + 1]
        {
        }
      }
    }
  }

  /** An `@<key>` entry is written for an absent key whose locale value is a
      dict with a "placeholders" field, and it then holds that field. */
  lemma {:induction false} MetadataWrittenForLocaleDict(d: Doc, lang: string, table: Table, m: Merged, i: nat)
    requires d.Valid() && Merge(d, lang, table) == Ok(m)
    requires DistinctKeys(table) && NoMetadataKeys(table)
    requires i < |table| && table[i].0 !in d.values && WritesMetadata(table[i].1, lang)
    ensures MetadataKey(table[i].0) in m.doc.values
    ensures m.doc.values[MetadataKey(table[i].0)] == MetadataFor(table[i].1, lang)
    decreases |table|
  {
    var step, rest := MergeFirst(d, lang, table, m);
    var meta := MetadataKey(table[i].0);
    if i == 0 {
      assert meta in rest.doc.values && rest.doc.values[meta] == MetadataFor(table[0].1, lang) by {
        AddKeyEffect(d, lang, table[0].0, table[0].1, step);
        forall j | 0 <= j < |table[1..]|
          ensures table[1..][j].0 != table[0].0
        {
          assert table[1..][j] == table[j + 1];
        }
        NoLaterMetadataWrite(step.doc, lang, table[1..], rest, table[0].0);
      }
    } else {
      assert meta in rest.doc.values && rest.doc.values[meta] == MetadataFor(table[i].1, lang) by {
        assert table[1..][i - 1] == table[i];
        assert table[i].0 !in step.doc.values by {
          PresenceAfterFirst(d, lang, table, step);
        }
        assert DistinctKeys(table[1..]) && NoMetadataKeys(table[1..]) by {
          TailKeys(table);
        }
        MetadataWrittenForLocaleDict(step.doc, lang, table[1..], rest, i - 1);
      }
    }
  }

  /** Once `@<key>` is in the document, the rest of the loop leaves it alone
      unless `key` itself comes round again. */
  lemma {:induction false} NoLaterMetadataWrite(d: Doc, lang: string, table: Table, m: Merged, key: string)
    requires d.Valid() && Merge(d, lang, table) == Ok(m)
    requires MetadataKey(key) in d.values
    requires forall i :: 0 <= i < |table| ==> table[i].0 != key
    ensures MetadataKey(key) in m.doc.values && m.doc.values[MetadataKey(key)] == d.values[MetadataKey(key)]
    decreases |table|
  {
    if table != [] {
      var step, rest := MergeFirst(d, lang, table, m);
      AddKeyEffect(d, lang, table[0].0, table[0].1, step);
      assert MetadataKey(key) != MetadataKey(table[0].0) by {
        assert MetadataKey(key)[1..] == key && MetadataKey(table[0].0)[1..] == table[0].0;
      }
      forall i | 0 <= i < |table[1..]|
        ensures table[1..][i].0 != key
      {
        assert table[1..][i] == table[i + 1];
      }
      NoLaterMetadataWrite(step.doc, lang, table[1..], rest, key);
    }
  }

  /** Nothing else changes when no metadata is in play (every absent key has
      a plain value for the locale, as in the shipped table): the merge
      succeeds, the new key order is the old one followed by the missing
      table keys in table order, and the count is the number of those keys.
      MergeExactValues gives the values. */
  lemma {:induction false} MergeExact(d: Doc, lang: string, table: Table)
    requires d.Valid() && DistinctKeys(table)
    requires forall i :: 0 <= i < |table| && table[i].0 !in d.values ==> Plain(table[i].1, lang)
    ensures Merge(d, lang, table).Ok?
    ensures Merge(d, lang, table).value.doc.order == d.order + Missing(d.values, table)
    ensures Merge(d, lang, table).value.count == |Missing(d.values, table)|
    decreases |table|
  {
    if table == [] {
      assert d.order + [] == d.order;
    } else {
      var tail := table[1..];
      var step, prefix := PlainFirstStep(d, lang, table);
      var rest := Missing(d.values, tail);
      MergeExact(step.doc, lang, tail);
      var r := Merge(step.doc, lang, tail).value;
      assert Merge(d, lang, table) == Ok(Merged(r.doc, r.count + step.count));
      ConcatAssociates(d.order, prefix, rest);
    }
  }

  /** The keys a successful merge appends, in the order it appends them:
      for each absent table key in table order, the key and then, when its
      locale value is a dict with "placeholders" and the file has no such
      entry yet, its `@<key>`. The reference for MergeOrder. */
  function Added(present: map<string, Json>, lang: string, table: Table): (r: seq<string>)
    ensures forall k :: k in r ==> k !in present
    ensures |Missing(present, table)| <= |r| <= 2 * |table|
  {
    if table == [] then []
    else StepAdded(present, lang, table[0].0, table[0].1) + Added(present, lang, table[1..])
  }

  /** Only the presence of the table's keys and of their `@` keys decides
      Added. */
  lemma {:induction false} AddedDependsOn(p: map<string, Json>, q: map<string, Json>, lang: string, table: Table)
    requires forall i :: 0 <= i < |table| ==> (table[i].0 in p <==> table[i].0 in q)
    requires forall i :: 0 <= i < |table| ==> (MetadataKey(table[i].0) in p <==> MetadataKey(table[i].0) in q)
    ensures Added(p, lang, table) == Added(q, lang, table)
    decreases |table|
  {
    if table != [] {
      assert table[0].0 in p <==> table[0].0 in q;
      assert MetadataKey(table[0].0) in p <==> MetadataKey(table[0].0) in q;
      forall i | 0 <= i < |table[1..]|
        ensures table[1..][i] == table[i + 1]
      {
      }
      AddedDependsOn(p, q, lang, table[1..]);
    }
  }

  /** The key order after any successful merge of a table with distinct,
      non-`@` keys: the old order followed by Added, so the new keys come in
      table order, each `@<key>` right after its key. */
  lemma {:induction false} MergeOrder(d: Doc, lang: string, table: Table, m: Merged)
    requires d.Valid() && Merge(d, lang, table) == Ok(m)
    requires DistinctKeys(table) && NoMetadataKeys(table)
    ensures m.doc.order == d.order + Added(d.values, lang, table)
    decreases |table|
  {
    if table == [] {
      assert d.order + [] == d.order;
    } else {
      var key := table[0].0;
      var tail := table[1..];
      var step, rest := MergeFirst(d, lang, table, m);
      AddKeyEffect(d, lang, key, table[0].1, step);
      AddKeyOrder(d, lang, key, table[0].1, step);
      TailKeys(table);
      MergeOrder(step.doc, lang, tail, rest);
      forall i | 0 <= i < |tail|
        ensures tail[i].0 in step.doc.values <==> tail[i].0 in d.values
        ensures MetadataKey(tail[i].0) in step.doc.values <==> MetadataKey(tail[i].0) in d.values
      {
        assert tail[i] == table[i + 1];
        assert tail[i].0 != key && !IsMetadata(tail[i].0) && !IsMetadata(key);
        assert MetadataKey(tail[i].0) != key;
        assert MetadataKey(tail[i].0) != MetadataKey(key) by {
          assert MetadataKey(tail[i].0)[1..] == tail[i].0;
        }
      }
      AddedDependsOn(step.doc.values, d.values, lang, tail);
      ConcatAssociates(d.order, StepAdded(d.values, lang, key, table[0].1), Added(d.values, lang, tail));
    }
  }

  lemma PrefixTransitive<T>(a: seq<T>, b: seq<T>, c: seq<T>)
    requires a <= b && b <= c
    ensures a <= c
  {
    assert a == b[..|a|] && b == c[..|b|];
  }

  lemma ConcatAssociates<T>(a: seq<T>, b: seq<T>, c: seq<T>)
    ensures (a + b) + c == a + (b + c)
  {
  }

  /** The values after a merge with no metadata in play: every old key keeps
      its value (the `@` ones too), and every key that was absent holds its
      locale value. */
  lemma {:induction false} MergeExactValues(d: Doc, lang: string, table: Table, m: Merged)
    requires d.Valid() && DistinctKeys(table) && Merge(d, lang, table) == Ok(m)
    requires forall i :: 0 <= i < |table| && table[i].0 !in d.values ==> Plain(table[i].1, lang)
    ensures forall k :: k in d.values ==> k in m.doc.values && m.doc.values[k] == d.values[k]
    ensures forall i :: 0 <= i < |table| && table[i].0 !in d.values ==>
      && lang in table[i].1.locales && table[i].0 in m.doc.values
      && m.doc.values[table[i].0] == InsertedValue(table[i].1.locales[lang])
    decreases |table|
  {
    if table != [] {
      var tail := table[1..];
      var step, prefix := PlainFirstStep(d, lang, table);
      var rest := Merge(step.doc, lang, tail).value;
      assert m == Merged(rest.doc, rest.count + step.count);
      MergeExactValues(step.doc, lang, tail, rest);
      forall i | 0 <= i < |table| && table[i].0 !in d.values
        ensures lang in table[i].1.locales && table[i].0 in m.doc.values
        ensures m.doc.values[table[i].0] == InsertedValue(table[i].1.locales[lang])
      {
        if i > 0 {
          assert tail[i - 1] == table[i];
        }
      }
    }
  }

  /** The first turn of the loop when no metadata is in play: it puts the
      first key if absent (`prefix` is that key, or nothing), and leaves the
      rest of the table facing the same missing keys and the same plain
      values. */
  lemma PlainFirstStep(d: Doc, lang: string, table: Table) returns (step: Merged, prefix: seq<string>)
    requires d.Valid() && table != [] && DistinctKeys(table)
    requires forall i :: 0 <= i < |table| && table[i].0 !in d.values ==> Plain(table[i].1, lang)
    ensures AddKey(d, lang, table[0].0, table[0].1) == Ok(step) && step.doc.Valid()
    ensures prefix == if table[0].0 in d.values then [] else [table[0].0]
    ensures table[0].0 in d.values ==> step.doc == d
    ensures step.doc.order == d.order + prefix && step.count == |prefix|
    ensures table[0].0 !in d.values ==>
      step.doc.values == d.values[table[0].0 := InsertedValue(table[0].1.locales[lang])]
    ensures DistinctKeys(table[1..])
    ensures forall i :: 0 <= i < |table[1..]| && table[1..][i].0 !in step.doc.values ==> Plain(table[1..][i].1, lang)
    ensures Missing(step.doc.values, table[1..]) == Missing(d.values, table[1..])
    ensures Missing(d.values, table) == prefix + Missing(d.values, table[1..])
  {
    var key := table[0].0;
    var tail := table[1..];
    step := AddKey(d, lang, key, table[0].1).value;
    prefix := if key in d.values then [] else [key];
    AddKeyEffect(d, lang, key, table[0].1, step);
    TailDistinct(table);
    forall i | 0 <= i < |tail|
      ensures tail[i].0 in step.doc.values <==> tail[i].0 in d.values
    {
      assert tail[i] == table[i + 1];
    }
    forall i | 0 <= i < |tail| && tail[i].0 !in step.doc.values
      ensures Plain(tail[i].1, lang)
    {
      assert tail[i] == table[i + 1];
    }
    MissingDependsOnPresence(step.doc.values, d.values, tail);
    if key in d.values {
      assert d.order + [] == d.order;
    }
  }

  lemma TailDistinct(table: Table)
    requires table != [] && DistinctKeys(table)
    ensures DistinctKeys(table[1..])
  {
    forall i, j | 0 <= i < j < |table[1..]|
      ensures table[1..][i].0 != table[1..][j].0
    {
      assert table[1..][i] == table[i + 1] && table[1..][j] == table[j + 1];
    }
  }

  /** `k` is the key of the table pair `p`, or its `@<key>` written because
      the key was absent from `d` and its locale value is a dict with a
      "placeholders" field. */
  ghost predicate NewKeyFrom(d: Doc, lang: string, p: (string, Entry), k: string) {
    k == p.0 || (k == MetadataKey(p.0) && p.0 !in d.values && WritesMetadata(p.1, lang))
  }

  /** Every key the merge adds is a table key, or the `@<key>` of an absent
      table key whose locale value is a dict with a "placeholders" field. */
  lemma {:induction false} NewKeysComeFromTable(d: Doc, lang: string, table: Table, m: Merged)
    requires d.Valid() && Merge(d, lang, table) == Ok(m)
    ensures forall k :: k in m.doc.values && k !in d.values ==>
      exists i :: 0 <= i < |table| && NewKeyFrom(d, lang, table[i], k)
    decreases |table|
  {
    if table != [] {
      var step, rest := MergeFirst(d, lang, table, m);
      AddKeyEffect(d, lang, table[0].0, table[0].1, step);
      var key := table[0].0;
      var tail := table[1..];
      NewKeysComeFromTable(step.doc, lang, tail, rest);
      forall k | k in m.doc.values && k !in d.values
        ensures exists i :: 0 <= i < |table| && NewKeyFrom(d, lang, table[i], k)
      {
        if k in step.doc.values {
          if k != key {
            assert k == MetadataKey(key) && key !in d.values;
            assert !Plain(table[0].1, lang);
            assert WritesMetadata(table[0].1, lang);
          }
          assert NewKeyFrom(d, lang, table[0], k);
        } else {
          var j :| 0 <= j < |tail| && NewKeyFrom(step.doc, lang, tail[j], k);
          assert tail[j] == table[j + 1];
        }
      }
    }
  }
}
