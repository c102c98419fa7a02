# Coupon localization merge, modelled in Dafny

`add_coupon_localizations.py` adds the coupon screens' translation keys to
the Flutter ARB files of three locales (`en`, `ar`, `fr`). For each locale,
`add_keys_to_file` does the following:

- loads the locale's document, a JSON object whose keys keep their insertion order;
- walks the translation table in table order;
- adds every key the document lacks, with that locale's value;
- may write an `@<key>` metadata entry beside it;
- counts the keys it added.

The top level runs this for `en`, `ar` and `fr` in that order and sums the
counts.

The model takes the table and the files as parameters:

- `documents.dfy` (module `Documents`): the parsed document as an ordered
  dict, `Doc(order, values)`. `Put` is Python's `data[key] = v`. `Contains`
  is Python's `sub in s` on two strings.
- `merger.dfy` (module `Merger`):
  - the table (`Entry`, `LocaleValue` = string or dict) and the error
    outcomes: a missing file, the `KeyError` of line 493, and the
    `TypeError` of line 502;
  - one turn of the loop, `AddKey`, and the loop as a specification
    function, `Merge`;
  - the imperative loop `MergeDocument`, which updates the document and
    the counter step by step and is proved equal to `Merge`;
  - `add_keys_to_file` over a map of files, as `UpdateFile` and
    `AddKeysToFile`.
- `merge_properties.dfy` (module `MergeProperties`): what the merge
  guarantees. Existing keys are kept, the table is covered, the merge is
  idempotent, and no other key appears. For a table whose keys are
  distinct and none of which starts with `@`, the count is the number of
  missing keys, and new keys come in table order, each `@<key>` right
  after its key.
- `script.dfy` (module `Script`): the per-locale loop with its running
  total, and what a whole run produces.
- `intended.dfy` (module `Intended`): the merge with the metadata guard
  corrected (see Findings), proved to be the as-written merge over a
  rewritten table, so every property of `Merge` carries over to it.
- `samples.dfy` (module `Samples`): the entries `coupons` and
  `deleteZoneConfirmation` as witnesses, plus a string that trips the guard.

The guard writes `@<key>` only when the locale value itself contains
"placeholders". When an absent key's locale value is a dict holding that
field, the write replaces any `@<key>` already in the file. So "every
existing key keeps its value" holds for every key except such an `@` key.
`MergeKeepsUntouched` states exactly this. `MergeKeepsExisting` states it
more simply for the keys that do not start with `@`.

The top-level run (`Script`) uses the merge as written, so the run's
results are the script's actual output. `Intended.IntendedIsNormalizedMerge`
carries every `Merge` property to the corrected merge.

## Model

| member | source | states |
|---|---|---|
| Documents.Put | add_coupon_localizations.py:494-497 | `data[key] = v`: the key holds `v` afterwards; every other key keeps its value; a new key is appended to the key order, an existing key keeps its place; the document stays well formed |
| Documents.MissingCharRulesOut | add_coupon_localizations.py:500 | a string that lacks one character of `sub` does not contain `sub` (the substring test the guard performs on a str) |
| Documents.ContainsAt | add_coupon_localizations.py:500 | a string holding `sub` at some position passes the substring test |
| Documents.ContainsWitness | add_coupon_localizations.py:500 | conversely, a string that passes the substring test holds `sub` at the returned position |
| Documents.MetadataKey | add_coupon_localizations.py:501 | `f"@{key}"` is a metadata key whose tail is `key`, so distinct keys give distinct `@` keys |
| Merger.MetadataFor | add_coupon_localizations.py:501-503 | the metadata entry is an object whose only field, "placeholders", holds the locale dict's own "placeholders" value |
| Merger.AddKey | add_coupon_localizations.py:491-505 | one loop turn: a present key is skipped with count 0; for an absent key, the turn succeeds exactly when the entry has the locale and its value is not a string containing "placeholders"; on success the key is present and the count is 1 |
| Merger.AddKeyEffect | add_coupon_localizations.py:491-503 | a successful turn: old keys stay and keep their values, except the `@<key>` it writes; the old key order is a prefix; only the key and its `@<key>` can appear; the absent key holds its locale value; the metadata is written exactly when the locale value is a dict with "placeholders" |
| Merger.Merge | add_coupon_localizations.py:490-505 | the loop as a fold over the table: a successful result is a well-formed document, and the count is at most the table length |
| Merger.AddKeyOrder | add_coupon_localizations.py:491-503 | a successful turn extends the key order by exactly the absent key, followed by its `@<key>` when metadata is written and the file had no such entry |
| Merger.MergeDocument | add_coupon_localizations.py:488-505 | the imperative loop returns exactly `Merge` of the loaded document: same document, same count, same error |
| Merger.UpdateFile | add_coupon_localizations.py:482-513 | succeeds exactly when the locale's file exists and its merge succeeds; the locale's file then holds the merged document and the count is the merge's; the set of files is unchanged and every other file is untouched; on error nothing is written |
| Merger.AddKeysToFile | add_coupon_localizations.py:482-513 | the method's result is exactly `UpdateFile`: a missing file, the merge's error, or the files with the merged document and the count |
| MergeProperties.Missing | add_coupon_localizations.py:490-505 | the reference for what is added: the table keys absent from the document, in table order, none of them present and no more than the table has |
| MergeProperties.MergeKeepsExisting | add_coupon_localizations.py:491-492 | every key present before the merge is present after it; every non-`@` key keeps exactly its old value; the old key order is a prefix of the new one |
| MergeProperties.MergeKeepsUntouched | add_coupon_localizations.py:491-503 | every key present before the merge, `@` keys included, keeps exactly its old value unless it is the `@<key>` of an absent table key whose locale value is a dict with "placeholders" |
| MergeProperties.MergeCoversTable | add_coupon_localizations.py:491-497 | after a successful merge every table key is in the document |
| MergeProperties.MergeOfCompleteDoc | add_coupon_localizations.py:491-492 | a document that already holds every table key comes back unchanged, with count 0 |
| MergeProperties.MergeIdempotent | add_coupon_localizations.py:491-505 | merging the merged document again returns 0 and leaves it unchanged |
| MergeProperties.MergeInsertsLocaleValue | add_coupon_localizations.py:493-497 | each table key absent before the merge holds its locale's value afterwards: the string, a dict's "text", or the dict |
| MergeProperties.MergeCountsMissing | add_coupon_localizations.py:490-505 | for a table with distinct keys none of which starts with `@`, the count is the number of table keys absent before the merge |
| MergeProperties.MergeSucceedsIff | add_coupon_localizations.py:493-502 | the merge succeeds exactly when every absent table key has the locale and its value is not a string containing "placeholders" |
| MergeProperties.MetadataWrittenForLocaleDict | add_coupon_localizations.py:500-503 | for an absent key whose locale value is a dict with "placeholders", `@<key>` holds `{"placeholders": …}` from that dict |
| MergeProperties.NoLaterMetadataWrite | add_coupon_localizations.py:500-503 | an existing `@<key>` keeps its value when the key is not in the table |
| MergeProperties.MergeExact | add_coupon_localizations.py:491-505 | when no absent entry's locale value contains "placeholders", the merge succeeds; the new key order is the old order followed by the missing table keys in table order; the count is their number (`MergeOrder` gives the order when metadata is written) |
| MergeProperties.MergeExactValues | add_coupon_localizations.py:491-497 | under the same condition every old key keeps its value and every missing key holds its locale value: the string, a dict's "text", or the dict |
| MergeProperties.Added | add_coupon_localizations.py:490-505 | the reference for the appended keys: for each absent table key in table order, the key and then, for a dict with "placeholders", its `@<key>` unless the file has one; none of them present before, at least as many as `Missing` and at most two per entry |
| MergeProperties.MergeOrder | add_coupon_localizations.py:490-505 | for any successful merge of a table with distinct keys none of which starts with `@`, the new key order is exactly the old order followed by `Added`, metadata writes included |
| MergeProperties.NewKeysComeFromTable | add_coupon_localizations.py:491-503 | every key the merge adds is a table key, or the `@<key>` of an absent table key whose locale value is a dict with "placeholders" |
| Script.RunFrom | add_coupon_localizations.py:516-519 | the locale loop as a function: every file stays well formed and the set of files is unchanged |
| Script.Run | add_coupon_localizations.py:516-519 | the imperative loop with `total_added` returns exactly `RunFrom` over `en`, `ar`, `fr` |
| Script.RunAddsUpLocales | add_coupon_localizations.py:516-519 | a run finishes exactly when all three files exist and merge; the total is then the sum of the three counts and each file holds its own merged document; if `en` merges and `ar` does not, the run stops with `en` already written |
| Script.ShippedTableRun | add_coupon_localizations.py:516-519 | with a table of the shipped shape (every entry has a string for all three locales, none containing "placeholders"), the run finishes; each file is its old key order followed by its missing keys; the total is the sum of the missing counts |
| Samples.CouponsArePlain | add_coupon_localizations.py:7-11 | `coupons` is added for each locale without metadata |
| Samples.SampleValuesArePlain | add_coupon_localizations.py:463-472 | neither sample entry's locale strings contain "placeholders", for any of the three locales |
| Samples.SampleMergeAddsBothKeys | add_coupon_localizations.py:490-505 | on an empty file both sample keys are added, in table order, with count 2 |
| Samples.SampleMergeWritesNoMetadata | add_coupon_localizations.py:500-503 | on that file `deleteZoneConfirmation` holds its string and no `@deleteZoneConfirmation` is written, although the entry declares placeholders |
| Samples.MentionOfPlaceholdersRaises | add_coupon_localizations.py:500-502 | a string containing "placeholders" makes the merge stop with the str-indexed-by-str error |
| Intended.IntendedPlaceholders | add_coupon_localizations.py:467-471 | the declaration to write is the entry-level "placeholders" when present; there is none exactly when the entry has none and its locale value is not a dict with that field |
| Intended.IntendedAddKey | add_coupon_localizations.py:491-505 | the corrected loop turn: a present key is skipped; for an absent key it fails only on a missing locale |
| Intended.IntendedMerge | add_coupon_localizations.py:490-505 | the corrected loop: a successful result is a well-formed document |
| Intended.IntendedStepIsNormalizedStep | add_coupon_localizations.py:491-505 | the corrected turn equals the as-written turn on the entry rewritten so that its locale value is a dict with "text" and the intended "placeholders" |
| Intended.IntendedIsNormalizedMerge | add_coupon_localizations.py:490-505 | the corrected merge equals the as-written merge over the rewritten table |
| Intended.IntendedMergeSucceedsIff | add_coupon_localizations.py:493-502 | the corrected merge fails exactly when an absent key's entry lacks the locale |
| Intended.IntendedMergeWritesPlaceholders | add_coupon_localizations.py:500-503 | every absent key holds its locale value; when its entry declares placeholders, `@<key>` holds exactly `{"placeholders": <that declaration>}` |
| Intended.IntendedAgreesWithoutEntryPlaceholders | add_coupon_localizations.py:500-503 | where the as-written merge succeeds and no entry declares entry-level placeholders, the corrected merge gives the same document and count |
| Intended.IntendedNewKeysComeFromTable | add_coupon_localizations.py:491-503 | in any document and for any table, every key the corrected merge adds is a table key or the `@<key>` of an absent entry that declares placeholders; a string value without a declaration gets no `@<key>`, whatever it contains |
| Intended.IntendedStoresAnyText | add_coupon_localizations.py:500-502 | on an empty `en` file and a one-entry table with a string value and no declaration, the corrected merge stores the string, whatever it contains, and nothing else |
| Samples.SampleIntendedMergeWritesMetadata | add_coupon_localizations.py:467-471 | the corrected merge on an empty file writes `@deleteZoneConfirmation` holding `{"placeholders": {"zoneName": {"type": "String"}}}` |

## Left out

- Reading and writing the `.arb` files (`open`, `json.load`, `json.dump` with `ensure_ascii=False` and `indent=2`, lines 486-487 and 509-510): a file is an already-parsed document in a map keyed by locale code. A missing file becomes an error outcome. Malformed JSON, a top level that is not an object, and a failed write are not modelled.
- The file path constants (lines 476-480): files are addressed by locale code.
- The `print` calls (lines 506, 512, 521): console output only.
- The literal translation table (lines 5-473): the table is a parameter. Its shape is the `Script.ShippedShape` predicate. Only `coupons` and `deleteZoneConfirmation` are written out, as witnesses. That the whole literal table has this shape is not proved.
- Unicode and escape details of the strings: strings are opaque sequences of characters. JSON numbers are kept as their literal text.
- Locale values other than a string or a dict, such as a list or a number: the table holds only these two kinds.
- Duplicate keys in the table, and table keys that start with `@`: the table is a dict, so its keys are distinct, and the literal at lines 5-473 repeats none and has none starting with `@`. The lemmas that rely on this say so with `DistinctKeys` and `NoMetadataKeys` (MergeCountsMissing, MergeInsertsLocaleValue, MergeSucceedsIff, MetadataWrittenForLocaleDict, MergeOrder). Without `NoMetadataKeys` a key `@a` after a dict entry `a` with "placeholders" is written as metadata and then skipped as present, so the count falls short of the missing keys.

## Findings

| source | as written | input that shows it | evidently intended | confidence | as-written member | corrected member |
|---|---|---|---|---|---|---|
| add_coupon_localizations.py:500-503 | the guard tests for "placeholders" inside the locale's value, which is a substring test on the translated string | the entry `deleteZoneConfirmation` (lines 463-472) merged into a file that lacks it | write `@deleteZoneConfirmation` holding the entry-level placeholders declaration | not executed; high | Samples.SampleMergeWritesNoMetadata | Intended.IntendedMerge |
| add_coupon_localizations.py:500-502 | a locale string that contains "placeholders" passes the guard, and line 502 then indexes a str with a str | an entry whose English text is "Edit placeholders" | store the string, with no metadata and no crash (`IntendedMergeSucceedsIff`, `IntendedNewKeysComeFromTable`) | not executed; medium (no shipped string triggers it) | Samples.MentionOfPlaceholdersRaises | Intended.IntendedMerge |
