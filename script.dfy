/** The top level of the script: `add_keys_to_file` for each locale in
    turn, adding up the counts. */
module Script {
  import opened Documents
  import opened Merger
  import opened MergeProperties

  /** The locale codes, in the order the script processes them. */
  const Locales: seq<string> := ["en", "ar", "fr"]

  /** How a run ends: all files merged, with the total count; or stopped by
      an error, with the files as written before it. */
  datatype Outcome = Finished(files: Files, total: nat) | Aborted(files: Files, error: MergeError)

  /** Adds `n` to the total of a finished run. */
  function AddTotal(o: Outcome, n: nat): Outcome {
    match o
    case Finished(f, t) => Finished(f, t + n)
    case Aborted(f, e) => Aborted(f, e)
  }

  /** Processing the locale codes `langs[i..]` in order, as a function. */
  function RunFrom(files: Files, table: Table, langs: seq<string>, i: nat): (o: Outcome)
    requires AllValid(files) && i <= |langs|
    ensures AllValid(o.files) && o.files.Keys == files.Keys
    decreases |langs| - i
  {
    if i == |langs| then Finished(files, 0)
    else
      match UpdateFile(files, langs[i], table)
      case Err(e) => Aborted(files, e)
      case Ok(w) => AddTotal(RunFrom(w.files, table, langs, i + 1), w.count)
  }

  /** One locale of the run: its update either stops the run or hands the
      remaining locales the updated files. */
  lemma RunFromStep(files: Files, table: Table, langs: seq<string>, i: nat)
    requires AllValid(files) && i < |langs|
    ensures UpdateFile(files, langs[i], table).Err? ==>
      RunFrom(files, table, langs, i) == Aborted(files, UpdateFile(files, langs[i], table).error)
    ensures UpdateFile(files, langs[i], table).Ok? ==>
      var w := UpdateFile(files, langs[i], table).value;
      RunFrom(files, table, langs, i) == AddTotal(RunFrom(w.files, table, langs, i + 1), w.count)
  {
  }

  /** The same step with the total so far carried along. */
  lemma RunFromStepTotal(files: Files, table: Table, langs: seq<string>, i: nat, added: nat, w: Written)
    requires AllValid(files) && i < |langs| && UpdateFile(files, langs[i], table) == Ok(w)
    ensures AddTotal(RunFrom(files, table, langs, i), added) == AddTotal(RunFrom(w.files, table, langs, i + 1), added + w.count)
  {
    var rest := RunFrom(w.files, table, langs, i + 1);
    RunFromStep(files, table, langs, i);
    AddTotalTwice(rest, w.count, added);
  }

  lemma AddTotalTwice(o: Outcome, a: nat, b: nat)
    ensures AddTotal(AddTotal(o, a), b) == AddTotal(o, b + a)
  {
  }

  /** The script's main loop: `total_added` accumulates each file's count. */
  method Run(table: Table, files: Files) returns (o: Outcome)
    requires AllValid(files)
    ensures o == RunFrom(files, table, Locales, 0)
  {
    ghost var goal := RunFrom(files, table, Locales, 0);
    var current := files;
    var totalAdded: nat := 0;
    for i: nat := 0 to |Locales|
      invariant AllValid(current)
      invariant goal == AddTotal(RunFrom(current, table, Locales, i), totalAdded)
    {
      var count := AddKeysToFile(Locales[i], table, current);
      if count.Err? {
        assert RunFrom(current, table, Locales, i) == Aborted(current, count.error) by {
          RunFromStep(current, table, Locales, i);
        }
        return Aborted(current, count.error);
      }
      var w := count.value;
      RunFromStepTotal(current, table, Locales, i, totalAdded, w);
      current := w.files;
      totalAdded := totalAdded + w.count;
    }
    o := Finished(current, totalAdded);
  }

  /** The locale's file exists and its merge succeeds. */
  ghost predicate Merges(files: Files, lang: string, table: Table)
    requires AllValid(files)
  {
    lang in files && Merge(files[lang], lang, table).Ok?
  }

  /** The merge result for a locale whose merge succeeds. */
  ghost function MergedFile(files: Files, lang: string, table: Table): Merged
    requires AllValid(files) && Merges(files, lang, table)
  {
    Merge(files[lang], lang, table).value
  }

  /** A run finishes exactly when each of the three files exists and merges;
      its total is then the sum of the three per-file counts and each file
      holds its own merged document. Each locale's merge starts from that
      locale's original file. If `en` merges and `ar` does not, the run stops
      with the English file already written. */
  lemma RunAddsUpLocales(files: Files, table: Table)
    requires AllValid(files)
    ensures var o := RunFrom(files, table, Locales, 0);
      o.Finished? <==> Merges(files, "en", table) && Merges(files, "ar", table) && Merges(files, "fr", table)
    ensures var o := RunFrom(files, table, Locales, 0);
      o.Finished? ==>
        && o.total == MergedFile(files, "en", table).count + MergedFile(files, "ar", table).count
                      + MergedFile(files, "fr", table).count
        && o.files == files["en" := MergedFile(files, "en", table).doc]
                           ["ar" := MergedFile(files, "ar", table).doc]
                           ["fr" := MergedFile(files, "fr", table).doc]
    ensures var o := RunFrom(files, table, Locales, 0);
      Merges(files, "en", table) && !Merges(files, "ar", table) ==>
        o.Aborted? && o.files == files["en" := MergedFile(files, "en", table).doc]
  {
    assert |Locales| == 3 && Locales[0] == "en" && Locales[1] == "ar" && Locales[2] == "fr";
    RunFromStep(files, table, Locales, 0);
    if Merges(files, "en", table) {
      var w1 := UpdateFile(files, "en", table).value;
      assert "ar" in files ==> w1.files["ar"] == files["ar"];
      assert "fr" in files ==> w1.files["fr"] == files["fr"];
      RunFromStep(w1.files, table, Locales, 1);
      if Merges(files, "ar", table) {
        var w2 := UpdateFile(w1.files, "ar", table).value;
        assert "fr" in files ==> w2.files["fr"] == files["fr"];
        RunFromStep(w2.files, table, Locales, 2);
        if Merges(files, "fr", table) {
          var w3 := UpdateFile(w2.files, "fr", table).value;
          assert RunFrom(w3.files, table, Locales, 3) == Finished(w3.files, 0);
        }
      }
    }
  }

  /** The shape of the shipped table: every entry has a plain value for
      each of the three locales, without the substring "placeholders". */
  ghost predicate ShippedShape(table: Table) {
    forall i :: 0 <= i < |table| ==>
      Plain(table[i].1, "en") && Plain(table[i].1, "ar") && Plain(table[i].1, "fr")
  }

  /** With a table of the shipped shape and all three files present, the
      run finishes; each file becomes its old key order followed by its
      missing table keys, with no `@` metadata entry written, and the total
      is the number of missing keys summed over the three files. */
  lemma ShippedTableRun(files: Files, table: Table)
    requires AllValid(files) && DistinctKeys(table) && ShippedShape(table)
    requires "en" in files && "ar" in files && "fr" in files
    ensures var o := RunFrom(files, table, Locales, 0);
      && o.Finished?
      && o.total == |Missing(files["en"].values, table)| + |Missing(files["ar"].values, table)|
                    + |Missing(files["fr"].values, table)|
      && o.files["en"].order == files["en"].order + Missing(files["en"].values, table)
      && o.files["ar"].order == files["ar"].order + Missing(files["ar"].values, table)
      && o.files["fr"].order == files["fr"].order + Missing(files["fr"].values, table)
  {
    MergeExact(files["en"], "en", table);
    MergeExact(files["ar"], "ar", table);
    MergeExact(files["fr"], "fr", table);
    RunAddsUpLocales(files, table);
  }
}
