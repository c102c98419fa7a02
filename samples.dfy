/** Two entries of the shipped translation table, and what the merges do
    with them: the plain entry `coupons` and `deleteZoneConfirmation`, the
    one entry that declares placeholders. */
module Samples {
  import opened Documents
  import opened Merger
  import opened MergeProperties
  import opened Intended

  /** The `"` character. */
  const Quote: string := ['"']

  const CouponsEn: string := "Coupons"
  const CouponsAr: string := "قسائم الخصم"

  /** The entry `coupons` (add_coupon_localizations.py:7-11). */
  const Coupons: Entry :=
    Entry(map["en" := Text(CouponsEn), "ar" := Text(CouponsAr), "fr" := Text(CouponsEn)], None)

  const ZoneName: string := Quote + "{zoneName}" + Quote
  const DeleteEn: string := "Are you sure you want to delete "
  const DeleteAr: string := "هل أنت متأكد أنك تريد حذف "
  const DeleteFr: string := "Êtes-vous sûr de vouloir supprimer "
  const Question: string := "?"
  const QuestionAr: string := "؟"
  const ConfirmEn: string := DeleteEn + ZoneName + Question
  const ConfirmAr: string := DeleteAr + ZoneName + QuestionAr
  const ConfirmFr: string := DeleteFr + ZoneName + Question

  /** The placeholders declaration of `deleteZoneConfirmation`. */
  const ZoneNamePlaceholders: Json := Obj(map["zoneName" := Obj(map["type" := Str("String")])])

  /** The entry `deleteZoneConfirmation` (add_coupon_localizations.py:463-472):
      three plain strings, and "placeholders" beside them at entry level. */
  const DeleteZoneConfirmation: Entry :=
    Entry(map["en" := Text(ConfirmEn), "ar" := Text(ConfirmAr), "fr" := Text(ConfirmFr)], Some(ZoneNamePlaceholders))

  const SampleTable: Table := [("coupons", Coupons), ("deleteZoneConfirmation", DeleteZoneConfirmation)]

  /** A string value without an 'h' cannot contain "placeholders", so the
      entry is added for that locale without metadata. */
  lemma PlainWithoutH(e: Entry, lang: string, s: string)
    requires lang in e.locales && e.locales[lang] == Text(s) && 'h' !in s
    ensures Plain(e, lang)
  {
    assert PlaceholdersField[5] == 'h';
    MissingCharRulesOut(s, PlaceholdersField, 'h');
  }

  lemma NoCharInConcat(c: char, a: string, b: string)
    requires c !in a && c !in b
    ensures c !in a + b
  {
  }

  /** A confirmation string is its prefix, the quoted `{zoneName}` and a
      question mark. */
  lemma ConfirmationHasNoH(prefix: string, mark: string)
    requires 'h' !in prefix && 'h' !in mark
    ensures 'h' !in prefix + ZoneName + mark
  {
    NoCharInConcat('h', Quote, "{zoneName}");
    NoCharInConcat('h', Quote + "{zoneName}", Quote);
    NoCharInConcat('h', prefix, ZoneName);
    NoCharInConcat('h', prefix + ZoneName, mark);
  }

  lemma CouponsArePlain(lang: string)
    requires lang == "en" || lang == "ar" || lang == "fr"
    ensures Plain(Coupons, lang)
  {
    var s := Coupons.locales[lang].s;
    assert s == CouponsEn || s == CouponsAr;
    assert 'h' !in CouponsEn && 'h' !in CouponsAr;
    PlainWithoutH(Coupons, lang, s);
  }

  lemma ConfirmationIsPlain(lang: string, prefix: string, mark: string)
    requires lang in DeleteZoneConfirmation.locales
    requires DeleteZoneConfirmation.locales[lang] == Text(prefix + ZoneName + mark)
    requires 'h' !in prefix && 'h' !in mark
    ensures Plain(DeleteZoneConfirmation, lang)
  {
    ConfirmationHasNoH(prefix, mark);
    PlainWithoutH(DeleteZoneConfirmation, lang, prefix + ZoneName + mark);
  }

  /** The prefixes of the three confirmation strings lack an 'h'. */
  lemma DeleteEnHasNoH() ensures 'h' !in DeleteEn && 'h' !in Question {}
  lemma DeleteArHasNoH() ensures 'h' !in DeleteAr && 'h' !in QuestionAr {}
  lemma DeleteFrHasNoH() ensures 'h' !in DeleteFr {}

  /** No sample string contains "placeholders". */
  lemma SampleValuesArePlain(lang: string)
    requires lang == "en" || lang == "ar" || lang == "fr"
    ensures Plain(Coupons, lang) && Plain(DeleteZoneConfirmation, lang)
  {
    CouponsArePlain(lang);
    if lang == "en" {
      DeleteEnHasNoH();
      ConfirmationIsPlain(lang, DeleteEn, Question);
    } else if lang == "ar" {
      DeleteArHasNoH();
      ConfirmationIsPlain(lang, DeleteAr, QuestionAr);
    } else {
      DeleteEnHasNoH();
      DeleteFrHasNoH();
      ConfirmationIsPlain(lang, DeleteFr, Question);
    }
  }

  /** The table's two keys, both missing from an empty file. */
  lemma SampleKeysMissing()
    ensures DistinctKeys(SampleTable) && NoMetadataKeys(SampleTable)
    ensures Missing(EmptyDoc.values, SampleTable) == ["coupons", "deleteZoneConfirmation"]
    ensures SampleTable[1] == ("deleteZoneConfirmation", DeleteZoneConfirmation)
  {
  }

  /** The merge as written, on a locale file holding neither key, adds both
      keys in table order. */
  lemma SampleMergeAddsBothKeys(lang: string) returns (m: Merged)
    requires lang == "en" || lang == "ar" || lang == "fr"
    ensures Merge(EmptyDoc, lang, SampleTable) == Ok(m)
    ensures m.doc.order == ["coupons", "deleteZoneConfirmation"] && m.count == 2
  {
    SampleKeysMissing();
    assert forall i :: 0 <= i < |SampleTable| && SampleTable[i].0 !in EmptyDoc.values ==>
      Plain(SampleTable[i].1, lang) by {
      SampleValuesArePlain(lang);
    }
    MergeExact(EmptyDoc, lang, SampleTable);
    m := Merge(EmptyDoc, lang, SampleTable).value;
  }

  /** ... and stores the string of `deleteZoneConfirmation`, but writes no
      `@deleteZoneConfirmation` entry, although the entry declares
      placeholders. */
  lemma SampleMergeWritesNoMetadata(lang: string, m: Merged)
    requires lang == "en" || lang == "ar" || lang == "fr"
    requires Merge(EmptyDoc, lang, SampleTable) == Ok(m)
    ensures "deleteZoneConfirmation" in m.doc.values
    ensures m.doc.values["deleteZoneConfirmation"] == Str(DeleteZoneConfirmation.locales[lang].s)
    ensures MetadataKey("deleteZoneConfirmation") !in m.doc.values
  {
    var m' := SampleMergeAddsBothKeys(lang);
    SampleKeysMissing();
    MergeInsertsLocaleValue(EmptyDoc, lang, SampleTable, m, 1);
    assert m.doc.values["deleteZoneConfirmation"] == Str(DeleteZoneConfirmation.locales[lang].s);
    assert MetadataKey("deleteZoneConfirmation") !in m.doc.order by {
      assert MetadataKey("deleteZoneConfirmation")[0] == '@';
    }
  }

  /** The corrected merge on the same file writes the metadata entry. */
  lemma SampleIntendedMergeWritesMetadata(lang: string) returns (m: Merged)
    requires lang == "en" || lang == "ar" || lang == "fr"
    ensures IntendedMerge(EmptyDoc, lang, SampleTable) == Ok(m)
    ensures MetadataKey("deleteZoneConfirmation") in m.doc.values
    ensures m.doc.values[MetadataKey("deleteZoneConfirmation")] == MetadataEntry(ZoneNamePlaceholders)
  {
    SampleKeysMissing();
    assert IntendedMerge(EmptyDoc, lang, SampleTable).Ok? by {
      IntendedMergeSucceedsIff(EmptyDoc, lang, SampleTable);
    }
    m := IntendedMerge(EmptyDoc, lang, SampleTable).value;
    IntendedMergeWritesPlaceholders(EmptyDoc, lang, SampleTable, m, 1);
  }

  /** An entry whose English text mentions placeholders. */
  const Mention: Entry := Entry(map["en" := Text("Edit placeholders")], None)

  const MentionKey: string := "editPlaceholders"
  const MentionTable: Table := [(MentionKey, Mention)]

  /** Such a text makes the guard index a str with a str: the merge stops
      with the TypeError. */
  lemma MentionOfPlaceholdersRaises()
    ensures Merge(EmptyDoc, "en", MentionTable) == Err(StringIndexedByString(MentionKey, "en"))
  {
    var s := Mention.locales["en"].s;
    assert s[5..5 + |PlaceholdersField|] == PlaceholdersField;
    ContainsAt(s, PlaceholdersField, 5);
  }
}
