/** The additive key merge of `add_keys_to_file`: every key of the
    translation table that a locale document lacks is added to it, with the
    table's value for that locale; keys already present are left alone. */
module Merger {
  import opened Documents

  /** What a table entry holds for one locale code: a plain translation, or
      a dict (the branch for values that carry their own fields). */
  datatype LocaleValue = Text(s: string) | Structured(fields: map<string, Json>)

  /** One entry of the translation table: its value per locale code and,
      beside them at entry level, an optional "placeholders" declaration. */
  datatype Entry = Entry(locales: map<string, LocaleValue>, placeholders: Option<Json>)

  /** The translation table in its literal order: (key, entry) pairs. */
  type Table = seq<(string, Entry)>

  /** The ways a run can stop before the file is written back. */
  datatype MergeError =
    | FileNotFound(lang: string)                       // `open` fails on the locale's file
    | MissingLocale(key: string, lang: string)          // KeyError: the entry has no value for the locale
    | StringIndexedByString(key: string, lang: string)  // TypeError: a str indexed with "placeholders"

  datatype Result<T> = Ok(value: T) | Err(error: MergeError)

  /** A merged document and the number of table keys added to it. */
  datatype Merged = Merged(doc: Doc, count: nat)

  /** The names of the value fields the merge reads. */
  const PlaceholdersField: string := "placeholders"
  const TextField: string := "text"

  /** The metadata guard: `"placeholders" in translations[lang]`. On a str
      this is a substring test, on a dict a key test. */
  predicate HasPlaceholders(v: LocaleValue) {
    match v
    case Text(s) => Contains(s, PlaceholdersField)
    case Structured(f) => PlaceholdersField in f
  }

  /** The value stored under the key: the string itself; for a dict its
      "text" field when it has one, otherwise the whole dict. */
  function InsertedValue(v: LocaleValue): Json {
    match v
    case Text(s) => Str(s)
    case Structured(f) => if TextField in f then f[TextField] else Obj(f)
  }

  /** The entry can be added for `lang` without raising: the locale is
      present, and the guard does not send a str to be indexed. */
  predicate AddsWithoutError(e: Entry, lang: string) {
    lang in e.locales && !(e.locales[lang].Text? && HasPlaceholders(e.locales[lang]))
  }

  /** The entry is added for `lang` with no metadata written beside it. */
  predicate Plain(e: Entry, lang: string) {
    lang in e.locales && !HasPlaceholders(e.locales[lang])
  }

  /** The dict branch with a "placeholders" field: the only way a
      `@<key>` entry gets written. */
  predicate WritesMetadata(e: Entry, lang: string) {
    lang in e.locales && e.locales[lang].Structured? && PlaceholdersField in e.locales[lang].fields
  }

  /** The metadata entry `{"placeholders": p}`. */
  function MetadataEntry(p: Json): Json {
    Obj(map[PlaceholdersField := p])
  }

  /** The metadata entry written beside the key for such a value: an
      object whose only field, "placeholders", holds the dict's own. */
  function MetadataFor(e: Entry, lang: string): (r: Json)
    requires WritesMetadata(e, lang)
    ensures r.Obj? && r.fields.Keys == {PlaceholdersField}
    ensures r.fields[PlaceholdersField] == e.locales[lang].fields[PlaceholdersField]
  {
    MetadataEntry(e.locales[lang].fields[PlaceholdersField])
  }

  /** One iteration of the loop body, for the pair (key, e): a key already
      present is skipped; an absent one fails exactly when the entry does
      not satisfy AddsWithoutError. AddKeyEffect says what a successful step stores. */
  function AddKey(d: Doc, lang: string, key: string, e: Entry): (r: Result<Merged>)
    requires d.Valid()
    ensures key in d.values ==> r == Ok(Merged(d, 0))
    ensures key !in d.values ==> (r.Ok? <==> AddsWithoutError(e, lang))
    ensures r.Ok? ==> r.value.doc.Valid() && key in r.value.doc.values
    ensures r.Ok? ==> r.value.count == if key in d.values then 0 else 1
  {
    if key in d.values then Ok(Merged(d, 0))
    else if lang !in e.locales then Err(MissingLocale(key, lang))
    else
      var v := e.locales[lang];
      var d1 := Put(d, key, InsertedValue(v));
      if !HasPlaceholders(v) then Ok(Merged(d1, 1))
      else
        match v
        case Text(_) => Err(StringIndexedByString(key, lang))
        case Structured(f) =>
          Ok(Merged(Put(d1, MetadataKey(key), MetadataFor(e, lang)), 1))
  }

  /** What a successful step stores: the absent key gets its locale value,
      with the `@<key>` metadata beside it only for a dict that has
      "placeholders"; no other key changes value, no other key appears, and
      the old key order is kept as a prefix. */
  lemma AddKeyEffect(d: Doc, lang: string, key: string, e: Entry, r: Merged)
    requires d.Valid() && AddKey(d, lang, key, e) == Ok(r)
    ensures forall k :: k in d.values ==> k in r.doc.values && (k == MetadataKey(key) || r.doc.values[k] == d.values[k])
    ensures d.order <= r.doc.order
    ensures r.doc.values.Keys <= d.values.Keys + {key, MetadataKey(key)}
    ensures key !in d.values ==> r.doc.values[key] == InsertedValue(e.locales[lang])
    ensures key !in d.values && Plain(e, lang) ==> r.doc == Put(d, key, InsertedValue(e.locales[lang]))
    ensures key !in d.values && !Plain(e, lang) ==>
      && WritesMetadata(e, lang)
      && MetadataKey(key) in r.doc.values
      && r.doc.values[MetadataKey(key)] == MetadataFor(e, lang)
  {
  }

  /** The keys a turn appends to the key order, in order: an absent key,
      then its `@<key>` when the metadata is written and the file has no
      such entry yet. */
  function StepAdded(present: map<string, Json>, lang: string, key: string, e: Entry): (r: seq<string>)
    ensures forall k :: k in r ==> k !in present
    ensures key !in present <==> key in r
  {
    if key in present then []
    else [key] + (if WritesMetadata(e, lang) && MetadataKey(key) !in present then [MetadataKey(key)] else [])
  }

  /** A successful turn extends the key order by exactly StepAdded. */
  lemma AddKeyOrder(d: Doc, lang: string, key: string, e: Entry, r: Merged)
    requires d.Valid() && AddKey(d, lang, key, e) == Ok(r)
    ensures r.doc.order == d.order + StepAdded(d.values, lang, key, e)
  {
    if key !in d.values && WritesMetadata(e, lang) {
      var d1 := Put(d, key, InsertedValue(e.locales[lang]));
      assert MetadataKey(key) != key by {
        assert |MetadataKey(key)| == |key| + 1;
      }
      assert MetadataKey(key) in d1.values <==> MetadataKey(key) in d.values;
      if MetadataKey(key) !in d.values {
        assert (d.order + [key]) + [MetadataKey(key)] == d.order + ([key] + [MetadataKey(key)]);
      } else {
        assert [key] + [] == [key];
      }
    } else if key !in d.values {
      assert [key] + [] == [key];
    } else {
      assert d.order + [] == d.order;
    }
  }

  /** Adds `n` to the count of a successful result. */
  function AddCount(r: Result<Merged>, n: nat): Result<Merged> {
    match r
    case Ok(m) => Ok(Merged(m.doc, m.count + n))
    case Err(e) => Err(e)
  }

  /** One turn of the loop, seen from the specification: a successful first
      step hands the rest of the table to the document it produced. */
  lemma MergeStep(d: Doc, lang: string, table: Table, added: nat, step: Merged)
    requires d.Valid() && table != []
    requires AddKey(d, lang, table[0].0, table[0].1) == Ok(step)
    ensures AddCount(Merge(d, lang, table), added) == AddCount(Merge(step.doc, lang, table[1..]), added + step.count)
  {
    var rest := Merge(step.doc, lang, table[1..]);
    assert Merge(d, lang, table) == AddCount(rest, step.count);
    AddCountTwice(rest, step.count, added);
  }

  lemma AddCountTwice(r: Result<Merged>, a: nat, b: nat)
    ensures AddCount(AddCount(r, a), b) == AddCount(r, b + a)
  {
  }

  /** The whole loop over the table, as a function: the document it leaves
      and the number of keys it added, or the error that stopped it. */
  function Merge(d: Doc, lang: string, table: Table): (r: Result<Merged>)
    requires d.Valid()
    ensures r.Ok? ==> r.value.doc.Valid() && r.value.count <= |table|
    decreases |table|
  {
    if table == [] then Ok(Merged(d, 0))
    else
      match AddKey(d, lang, table[0].0, table[0].1)
      case Err(e) => Err(e)
      case Ok(step) => AddCount(Merge(step.doc, lang, table[1..]), step.count)
  }

  /** The merge loop of `add_keys_to_file`: `data` is the loaded document,
      updated key by key while `addedCount` counts the keys added. */
  method MergeDocument(data: Doc, lang: string, table: Table) returns (r: Result<Merged>)
    requires data.Valid()
    ensures r == Merge(data, lang, table)
  {
    var doc := data;
    var addedCount := 0;
    var i := 0;
    while i < |table|
      invariant 0 <= i <= |table|
      invariant doc.Valid()
      invariant Merge(data, lang, table) == AddCount(Merge(doc, lang, table[i..]), addedCount)
    {
      var (key, translations) := table[i];
      ghost var step := AddKey(doc, lang, key, translations);
      assert table[i..][0] == table[i] && table[i..][1..] == table[i + 1..];
      if step.Err? {
        assert Merge(doc, lang, table[i..]) == step;
      } else {
        MergeStep(doc, lang, table[i..], addedCount, step.value);
      }
      if key !in doc.values {
        if lang !in translations.locales {
          return Err(MissingLocale(key, lang));
        }
        var v := translations.locales[lang];
        doc := Put(doc, key, InsertedValue(v));
        if HasPlaceholders(v) {
          match v
          case Text(_) =>
            return Err(StringIndexedByString(key, lang));
          case Structured(f) =>
            doc := Put(doc, MetadataKey(key), MetadataFor(translations, lang));
        }
        addedCount := addedCount + 1;
      }
      assert step == Ok(Merged(doc, step.value.count));
      i := i + 1;
    }
    assert table[i..] == [];
    r := Ok(Merged(doc, addedCount));
  }

  /** The locale files, by locale code, as parsed documents. */
  type Files = map<string, Doc>

  ghost predicate AllValid(files: Files) {
    forall l :: l in files ==> files[l].Valid()
  }

  /** The files after a successful run of `add_keys_to_file` and its count. */
  datatype Written = Written(files: Files, count: nat)

  /** `add_keys_to_file(lang)` as a function: read the locale's document,
      merge, and write the result back in place of the old one. On an error
      nothing is written. */
  function UpdateFile(files: Files, lang: string, table: Table): (r: Result<Written>)
    requires AllValid(files)
    ensures r.Ok? ==> AllValid(r.value.files) && r.value.files.Keys == files.Keys
    ensures r.Ok? ==> forall l :: l in files && l != lang ==> r.value.files[l] == files[l]
    ensures r.Ok? <==> lang in files && Merge(files[lang], lang, table).Ok?
    ensures r.Ok? ==> r.value.files[lang] == Merge(files[lang], lang, table).value.doc
    ensures r.Ok? ==> r.value.count == Merge(files[lang], lang, table).value.count
  {
    if lang !in files then Err(FileNotFound(lang))
    else
      match Merge(files[lang], lang, table)
      case Err(e) => Err(e)
      case Ok(m) => Ok(Written(files[lang := m.doc], m.count))
  }

  /** `add_keys_to_file(lang)`: load, merge, store, return the count. */
  method AddKeysToFile(lang: string, table: Table, files: Files) returns (r: Result<Written>)
    requires AllValid(files)
    ensures r == UpdateFile(files, lang, table)
  {
    if lang !in files {
      return Err(FileNotFound(lang));
    }
    var data := files[lang];
    var merged := MergeDocument(data, lang, table);
    match merged
    case Err(e) =>
      r := Err(e);
    case Ok(m) =>
      r := Ok(Written(files[lang := m.doc], m.count));
  }
}
