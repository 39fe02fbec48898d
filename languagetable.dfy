/**
 * Language_Translator/app.py, `get_languages` and `get_language_code`: the
 * table of supported languages, as (code, display name) pairs in the
 * insertion order of the dictionary literal, and the reverse lookup from a
 * display name to its code.
 *
 * The display names are pairwise distinct. After the leading
 * ("auto", "Auto Detect") entry the names are in increasing code-point
 * order, which the proof uses: the table is written as small blocks whose
 * order is checked literally and then glued together.
 */
module LanguageTable {
  import opened Wrappers
  import opened StrOrder

  /** The display names of a table, in order. */
  function NamesOf(t: seq<(string, string)>): (r: seq<string>)
    ensures |r| == |t| && forall k :: 0 <= k < |t| ==> r[k] == t[k].1
  {
    seq(|t|, k requires 0 <= k < |t| => t[k].1)
  }

  // ---------------------------------------------------------------------------
  // Order of the display names, block by block

  /** Neighbouring names from position `i` on are in order, checked one pair
      at a time so that a literal table unfolds it. */
  predicate AdjSortedFrom(s: seq<(string, string)>, i: nat)
    decreases |s| - i
  {
    i + 1 >= |s| || (Lt(s[i].1, s[i + 1].1) && AdjSortedFrom(s, i + 1))
  }

  lemma {:induction false} AdjSortedNames(s: seq<(string, string)>, i: nat)
    requires AdjSortedFrom(s, i)
    ensures forall k :: i <= k < |s| - 1 ==> Lt(s[k].1, s[k + 1].1)
    ensures i == 0 ==> StrictlySorted(NamesOf(s))
    decreases |s| - i
  {
    if i + 1 < |s| { AdjSortedNames(s, i + 1); }
    if i == 0 { AdjacentSorted(NamesOf(s)); }
  }

  lemma GlueBlocks(p: seq<(string, string)>, b: seq<(string, string)>)
    requires StrictlySorted(NamesOf(p)) && StrictlySorted(NamesOf(b))
    requires |p| > 0 && |b| > 0 && Lt(p[|p| - 1].1, b[0].1)
    ensures StrictlySorted(NamesOf(p + b)) && (p + b)[|p + b| - 1] == b[|b| - 1] && p <= p + b
  {
    assert NamesOf(p + b) == NamesOf(p) + NamesOf(b);
    SortedAppend(NamesOf(p), NamesOf(b));
  }

  lemma SortedThree(s: seq<(string, string)>)
    requires |s| == 3 && Lt(s[0].1, s[1].1) && Lt(s[1].1, s[2].1)
    ensures StrictlySorted(NamesOf(s))
  {
    AdjacentSorted(NamesOf(s));
  }

  lemma ChineseVariants()
    ensures Lt("Chinese", "Chinese (Simplified)")
    ensures Lt("Chinese (Simplified)", "Chinese (Traditional)")
  {
  }

  // ---------------------------------------------------------------------------
  // The table

  const B0: seq<(string, string)> := [
    ("af", "Afrikaans"), ("sq", "Albanian"), ("am", "Amharic"), ("ar", "Arabic"),
    ("hy", "Armenian"), ("az", "Azerbaijani"), ("eu", "Basque"), ("be", "Belarusian")
  ]

  const B1: seq<(string, string)> := [
    ("bn", "Bengali"), ("bs", "Bosnian"), ("bg", "Bulgarian"), ("ca", "Catalan"),
    ("ceb", "Cebuano"), ("ny", "Chichewa")
  ]

  const B2: seq<(string, string)> := [
    ("zh", "Chinese"), ("zh-CN", "Chinese (Simplified)"), ("zh-TW", "Chinese (Traditional)")
  ]

  const B3: seq<(string, string)> := [
    ("co", "Corsican"), ("hr", "Croatian"), ("cs", "Czech"), ("da", "Danish"),
    ("nl", "Dutch"), ("en", "English"), ("eo", "Esperanto"), ("et", "Estonian")
  ]

  const B4: seq<(string, string)> := [
    ("tl", "Filipino"), ("fi", "Finnish"), ("fr", "French"), ("fy", "Frisian"),
    ("gl", "Galician"), ("ka", "Georgian"), ("de", "German"), ("el", "Greek")
  ]

  const B5: seq<(string, string)> := [
    ("gu", "Gujarati"), ("ht", "Haitian Creole"), ("ha", "Hausa"), ("haw", "Hawaiian"),
    ("he", "Hebrew"), ("hi", "Hindi"), ("hmn", "Hmong"), ("hu", "Hungarian")
  ]

  const B6: seq<(string, string)> := [
    ("is", "Icelandic"), ("ig", "Igbo"), ("id", "Indonesian"), ("ga", "Irish"),
    ("it", "Italian"), ("ja", "Japanese"), ("jw", "Javanese"), ("kn", "Kannada")
  ]

  const B7: seq<(string, string)> := [
    ("kk", "Kazakh"), ("km", "Khmer"), ("ko", "Korean"), ("ku", "Kurdish"),
    ("ky", "Kyrgyz"), ("lo", "Lao"), ("la", "Latin"), ("lv", "Latvian")
  ]

  const B8: seq<(string, string)> := [
    ("lt", "Lithuanian"), ("lb", "Luxembourgish"), ("mk", "Macedonian"), ("mg", "Malagasy"),
    ("ms", "Malay"), ("ml", "Malayalam"), ("mt", "Maltese"), ("mi", "Maori")
  ]

  const B9: seq<(string, string)> := [
    ("mr", "Marathi"), ("mn", "Mongolian"), ("my", "Myanmar"), ("ne", "Nepali"),
    ("no", "Norwegian"), ("ps", "Pashto"), ("fa", "Persian"), ("pl", "Polish")
  ]

  const B10: seq<(string, string)> := [
    ("pt", "Portuguese"), ("pa", "Punjabi"), ("ro", "Romanian"), ("ru", "Russian"),
    ("sm", "Samoan"), ("gd", "Scots Gaelic"), ("sr", "Serbian"), ("st", "Sesotho")
  ]

  const B11: seq<(string, string)> := [
    ("sn", "Shona"), ("sd", "Sindhi"), ("si", "Sinhala"), ("sk", "Slovak"),
    ("sl", "Slovenian"), ("so", "Somali"), ("es", "Spanish"), ("su", "Sundanese")
  ]

  const B12: seq<(string, string)> := [
    ("sw", "Swahili"), ("sv", "Swedish"), ("tg", "Tajik"), ("ta", "Tamil"),
    ("te", "Telugu"), ("th", "Thai"), ("tr", "Turkish"), ("uk", "Ukrainian")
  ]

  const B13: seq<(string, string)> := [
    ("ur", "Urdu"), ("uz", "Uzbek"), ("vi", "Vietnamese"), ("cy", "Welsh"),
    ("xh", "Xhosa"), ("yi", "Yiddish"), ("yo", "Yoruba"), ("zu", "Zulu")
  ]

  // The blocks glued together: P_k is B0 + ... + B_k.

  const P1: seq<(string, string)> := B0 + B1

  const P2: seq<(string, string)> := P1 + B2

  const P3: seq<(string, string)> := P2 + B3

  const P4: seq<(string, string)> := P3 + B4

  const P5: seq<(string, string)> := P4 + B5

  const P6: seq<(string, string)> := P5 + B6

  const P7: seq<(string, string)> := P6 + B7

  const P8: seq<(string, string)> := P7 + B8

  const P9: seq<(string, string)> := P8 + B9

  const P10: seq<(string, string)> := P9 + B10

  const P11: seq<(string, string)> := P10 + B11

  const P12: seq<(string, string)> := P11 + B12

  const P13: seq<(string, string)> := P12 + B13


  lemma B0Sorted()
    ensures StrictlySorted(NamesOf(B0))
  {
    assert AdjSortedFrom(B0, 0);
    AdjSortedNames(B0, 0);
  }

  lemma B1Sorted()
    ensures StrictlySorted(NamesOf(B1))
  {
    assert AdjSortedFrom(B1, 0);
    AdjSortedNames(B1, 0);
  }

  lemma B2Sorted()
    ensures StrictlySorted(NamesOf(B2))
  {
    ChineseVariants();
    SortedThree(B2);
  }

  lemma B3Sorted()
    ensures StrictlySorted(NamesOf(B3))
  {
    assert AdjSortedFrom(B3, 0);
    AdjSortedNames(B3, 0);
  }

  lemma B4Sorted()
    ensures StrictlySorted(NamesOf(B4))
  {
    assert AdjSortedFrom(B4, 0);
    AdjSortedNames(B4, 0);
  }

  lemma B5Sorted()
    ensures StrictlySorted(NamesOf(B5))
  {
    assert AdjSortedFrom(B5, 0);
    AdjSortedNames(B5, 0);
  }

  lemma B6Sorted()
    ensures StrictlySorted(NamesOf(B6))
  {
    assert AdjSortedFrom(B6, 0);
    AdjSortedNames(B6, 0);
  }

  lemma B7Sorted()
    ensures StrictlySorted(NamesOf(B7))
  {
    assert AdjSortedFrom(B7, 0);
    AdjSortedNames(B7, 0);
  }

  lemma B8Sorted()
    ensures StrictlySorted(NamesOf(B8))
  {
    assert AdjSortedFrom(B8, 0);
    AdjSortedNames(B8, 0);
  }

  lemma B9Sorted()
    ensures StrictlySorted(NamesOf(B9))
  {
    assert AdjSortedFrom(B9, 0);
    AdjSortedNames(B9, 0);
  }

  lemma B10Sorted()
    ensures StrictlySorted(NamesOf(B10))
  {
    assert AdjSortedFrom(B10, 0);
    AdjSortedNames(B10, 0);
  }

  lemma B11Sorted()
    ensures StrictlySorted(NamesOf(B11))
  {
    assert AdjSortedFrom(B11, 0);
    AdjSortedNames(B11, 0);
  }

  lemma B12Sorted()
    ensures StrictlySorted(NamesOf(B12))
  {
    assert AdjSortedFrom(B12, 0);
    AdjSortedNames(B12, 0);
  }

  lemma B13Sorted()
    ensures StrictlySorted(NamesOf(B13))
  {
    assert AdjSortedFrom(B13, 0);
    AdjSortedNames(B13, 0);
  }

  lemma P1Sorted()
    ensures StrictlySorted(NamesOf(P1)) && P1[|P1| - 1] == B1[|B1| - 1] && B0 <= P1
  {
    B0Sorted();
    B1Sorted();
    GlueBlocks(B0, B1);
  }

  lemma P2Sorted()
    ensures StrictlySorted(NamesOf(P2)) && P2[|P2| - 1] == B2[|B2| - 1] && B0 <= P2
  {
    P1Sorted();
    B2Sorted();
    GlueBlocks(P1, B2);
  }

  lemma P3Sorted()
    ensures StrictlySorted(NamesOf(P3)) && P3[|P3| - 1] == B3[|B3| - 1] && B0 <= P3
  {
    P2Sorted();
    B3Sorted();
    GlueBlocks(P2, B3);
  }

  lemma P4Sorted()
    ensures StrictlySorted(NamesOf(P4)) && P4[|P4| - 1] == B4[|B4| - 1] && B0 <= P4
  {
    P3Sorted();
    B4Sorted();
    GlueBlocks(P3, B4);
  }

  lemma P5Sorted()
    ensures StrictlySorted(NamesOf(P5)) && P5[|P5| - 1] == B5[|B5| - 1] && B0 <= P5
  {
    P4Sorted();
    B5Sorted();
    GlueBlocks(P4, B5);
  }

  lemma P6Sorted()
    ensures StrictlySorted(NamesOf(P6)) && P6[|P6| - 1] == B6[|B6| - 1] && B0 <= P6
  {
    P5Sorted();
    B6Sorted();
    GlueBlocks(P5, B6);
  }

  lemma P7Sorted()
    ensures StrictlySorted(NamesOf(P7)) && P7[|P7| - 1] == B7[|B7| - 1] && B0 <= P7
  {
    P6Sorted();
    B7Sorted();
    GlueBlocks(P6, B7);
  }

  lemma P8Sorted()
    ensures StrictlySorted(NamesOf(P8)) && P8[|P8| - 1] == B8[|B8| - 1] && B0 <= P8
  {
    P7Sorted();
    B8Sorted();
    GlueBlocks(P7, B8);
  }

  lemma P9Sorted()
    ensures StrictlySorted(NamesOf(P9)) && P9[|P9| - 1] == B9[|B9| - 1] && B0 <= P9
  {
    P8Sorted();
    B9Sorted();
    GlueBlocks(P8, B9);
  }

  lemma P10Sorted()
    ensures StrictlySorted(NamesOf(P10)) && P10[|P10| - 1] == B10[|B10| - 1] && B0 <= P10
  {
    P9Sorted();
    B10Sorted();
    GlueBlocks(P9, B10);
  }

  lemma P11Sorted()
    ensures StrictlySorted(NamesOf(P11)) && P11[|P11| - 1] == B11[|B11| - 1] && B0 <= P11
  {
    P10Sorted();
    B11Sorted();
    GlueBlocks(P10, B11);
  }

  lemma P12Sorted()
    ensures StrictlySorted(NamesOf(P12)) && P12[|P12| - 1] == B12[|B12| - 1] && B0 <= P12
  {
    P11Sorted();
    B12Sorted();
    GlueBlocks(P11, B12);
  }

  lemma P13Sorted()
    ensures StrictlySorted(NamesOf(P13)) && P13[|P13| - 1] == B13[|B13| - 1] && B0 <= P13
  {
    P12Sorted();
    B13Sorted();
    GlueBlocks(P12, B13);
  }

  /** The result of `get_languages()`, in insertion order. */
  const Languages: seq<(string, string)> := [("auto", "Auto Detect")] + P13

  /** "Auto Detect" sorts strictly between two neighbouring names
      ("Armenian" and "Azerbaijani"), so it differs from every other name. */
  lemma AutoDetectUnique(m: nat)
    requires m < |P13|
    ensures P13[m].1 != "Auto Detect"
  {
    P13Sorted();
    var n := NamesOf(P13);
    assert n[4] == "Armenian" && n[5] == "Azerbaijani";
    assert Lt("Armenian", "Auto Detect") && Lt("Auto Detect", "Azerbaijani");
    if m < 4 {
      LtTransitive(n[m], "Armenian", "Auto Detect");
      LtAsymmetric(n[m], "Auto Detect");
    } else if m > 5 {
      LtTransitive("Auto Detect", "Azerbaijani", n[m]);
      LtAsymmetric("Auto Detect", n[m]);
    } else if m == 4 {
      LtAsymmetric("Armenian", "Auto Detect");
    } else {
      LtAsymmetric("Auto Detect", "Azerbaijani");
    }
  }

  /** No two entries of `t` share a display name. */
  predicate DistinctNames(t: seq<(string, string)>)
  {
    forall i, j :: 0 <= i < |t| && 0 <= j < |t| && t[i].1 == t[j].1 ==> i == j
  }

  /** A head whose name is missing from a strictly increasing rest gives
      distinct names. */
  lemma DistinctFromParts(t: seq<(string, string)>, head: (string, string), rest: seq<(string, string)>)
    requires t == [head] + rest
    requires StrictlySorted(NamesOf(rest))
    requires forall m :: 0 <= m < |rest| ==> rest[m].1 != head.1
    ensures DistinctNames(t)
  {
    forall i, j | 0 <= i < |t| && 0 <= j < |t| && t[i].1 == t[j].1
      ensures i == j
    {
      if i > 0 && j > 0 {
        SortedDistinct(NamesOf(rest), i - 1, j - 1);
      }
    }
  }

  /** No two entries of the table share a display name. */
  lemma NamesDistinct()
    ensures DistinctNames(Languages)
  {
    P13Sorted();
    forall m | 0 <= m < |P13| ensures P13[m].1 != "Auto Detect" {
      AutoDetectUnique(m);
    }
    DistinctFromParts(Languages, ("auto", "Auto Detect"), P13);
  }

  // ---------------------------------------------------------------------------
  // Lookups

  /** `languages[code]`: the name stored under `code`, found at its first
      entry; `None` is the `KeyError` for a code not in the table. */
  function NameOf(t: seq<(string, string)>, code: string): (r: Option<string>)
    ensures r.Some? <==> exists k :: 0 <= k < |t| && t[k].0 == code
    ensures r.Some? ==> exists k :: 0 <= k < |t| && t[k] == (code, r.value) && forall j :: 0 <= j < k ==> t[j].0 != code
  {
    if t == [] then None
    else if t[0].0 == code then Some(t[0].1)
    else
      var r := NameOf(t[1..], code);
      assert forall k :: 1 <= k < |t| ==> t[k] == t[1..][k - 1];
      r
  }

  /** The code `get_language_code` returns: that of the first entry whose
      name is `name`, English when there is none. */
  function CodeFor(t: seq<(string, string)>, name: string): (r: string)
    ensures (forall k :: 0 <= k < |t| ==> t[k].1 != name) ==> r == "en"
    ensures (exists k :: 0 <= k < |t| && t[k].1 == name) ==>
              exists k :: 0 <= k < |t| && t[k] == (r, name) && forall j :: 0 <= j < k ==> t[j].1 != name
  {
    if t == [] then "en"
    else if t[0].1 == name then t[0].0
    else
      var r := CodeFor(t[1..], name);
      assert forall k :: 1 <= k < |t| ==> t[k] == t[1..][k - 1];
      r
  }

  /** The loop of `get_language_code` over the items of `languages`: the code
      of the first entry with the given name, else `'en'`. */
  method FindCode(languages: seq<(string, string)>, langName: string) returns (code: string)
    ensures code == CodeFor(languages, langName)
  {
    for i := 0 to |languages|
      invariant forall j :: 0 <= j < i ==> languages[j].1 != langName
    {
      if languages[i].1 == langName {
        CodeForFirst(languages, i, langName);
        return languages[i].0;
      }
    }
    return "en";
  }

  /** `get_language_code`, over the table of `get_languages()`. */
  method GetLanguageCode(langName: string) returns (code: string)
    ensures code == CodeFor(Languages, langName)
  {
    code := FindCode(Languages, langName);
  }

  lemma CodeForFirst(t: seq<(string, string)>, i: nat, name: string)
    requires i < |t| && t[i].1 == name && forall j :: 0 <= j < i ==> t[j].1 != name
    ensures CodeFor(t, name) == t[i].0
  {
    var k :| 0 <= k < |t| && t[k] == (CodeFor(t, name), name) && forall j :: 0 <= j < k ==> t[j].1 != name;
  }

  /** Every display name is looked up to the code of its own entry, because
      the names are distinct. */
  lemma CodeOfEveryName(k: nat)
    requires k < |Languages|
    ensures CodeFor(Languages, Languages[k].1) == Languages[k].0
  {
    NamesDistinct();
    var r := CodeFor(Languages, Languages[k].1);
    var i :| 0 <= i < |Languages| && Languages[i] == (r, Languages[k].1)
             && forall j :: 0 <= j < i ==> Languages[j].1 != Languages[k].1;
  }

  /** Name and code lookups are inverse: the code of the name stored under a
      code of the table is that code. */
  lemma CodeOfNameOf(code: string)
    requires NameOf(Languages, code).Some?
    ensures CodeFor(Languages, NameOf(Languages, code).value) == code
  {
    var k :| 0 <= k < |Languages| && Languages[k] == (code, NameOf(Languages, code).value)
             && forall j :: 0 <= j < k ==> Languages[j].0 != code;
    CodeOfEveryName(k);
  }

  /** The leading entry: "Auto Detect" is looked up to 'auto'. */
  lemma AutoDetectCode()
    ensures CodeFor(Languages, "Auto Detect") == "auto"
    ensures NameOf(Languages, "auto") == Some("Auto Detect")
  {
    CodeOfEveryName(0);
  }

  /** The name stored under a code is "Auto Detect" exactly for 'auto'. */
  lemma AutoDetectOnlyForAuto(code: string)
    requires NameOf(Languages, code).Some?
    ensures NameOf(Languages, code).value == "Auto Detect" <==> code == "auto"
  {
    NamesDistinct();
    var k :| 0 <= k < |Languages| && Languages[k] == (code, NameOf(Languages, code).value)
             && forall j :: 0 <= j < k ==> Languages[j].0 != code;
    if code == "auto" {
      assert k == 0;
    }
    if NameOf(Languages, code).value == "Auto Detect" {
      assert Languages[0].1 == Languages[k].1;
    }
  }
  // ---------------------------------------------------------------------------
  // Codes: 'auto' belongs to the leading entry only

  /** No entry of `s` from position `i` on has the code `code`, checked one
      entry at a time so that a literal table unfolds it. */
  predicate CodeAbsentFrom(s: seq<(string, string)>, i: nat, code: string)
    decreases |s| - i
  {
    i >= |s| || (s[i].0 != code && CodeAbsentFrom(s, i + 1, code))
  }

  lemma {:induction false} CodeAbsentAt(s: seq<(string, string)>, i: nat, code: string)
    requires CodeAbsentFrom(s, i, code)
    ensures i == 0 ==> CodeAbsent(s, code)
    ensures forall k :: i <= k < |s| ==> s[k].0 != code
    decreases |s| - i
  {
    if i < |s| { CodeAbsentAt(s, i + 1, code); }
  }

  /** No entry of `t` has the code `code`. */
  predicate CodeAbsent(t: seq<(string, string)>, code: string)
  {
    forall k :: 0 <= k < |t| ==> t[k].0 != code
  }

  lemma CodeAbsentAppend(p: seq<(string, string)>, b: seq<(string, string)>, code: string)
    requires CodeAbsent(p, code) && CodeAbsent(b, code)
    ensures CodeAbsent(p + b, code)
  {
    forall k | 0 <= k < |p + b| ensures (p + b)[k].0 != code {
      if k >= |p| { assert (p + b)[k] == b[k - |p|]; }
    }
  }

  lemma B0NoAuto()
    ensures CodeAbsent(B0, "auto")
  {
    assert CodeAbsentFrom(B0, 0, "auto");
    CodeAbsentAt(B0, 0, "auto");
  }

  lemma B1NoAuto()
    ensures CodeAbsent(B1, "auto")
  {
    assert CodeAbsentFrom(B1, 0, "auto");
    CodeAbsentAt(B1, 0, "auto");
  }

  lemma B2NoAuto()
    ensures CodeAbsent(B2, "auto")
  {
    assert CodeAbsentFrom(B2, 0, "auto");
    CodeAbsentAt(B2, 0, "auto");
  }

  lemma B3NoAuto()
    ensures CodeAbsent(B3, "auto")
  {
    assert CodeAbsentFrom(B3, 0, "auto");
    CodeAbsentAt(B3, 0, "auto");
  }

  lemma B4NoAuto()
    ensures CodeAbsent(B4, "auto")
  {
    assert CodeAbsentFrom(B4, 0, "auto");
    CodeAbsentAt(B4, 0, "auto");
  }

  lemma B5NoAuto()
    ensures CodeAbsent(B5, "auto")
  {
    assert CodeAbsentFrom(B5, 0, "auto");
    CodeAbsentAt(B5, 0, "auto");
  }

  lemma B6NoAuto()
    ensures CodeAbsent(B6, "auto")
  {
    assert CodeAbsentFrom(B6, 0, "auto");
    CodeAbsentAt(B6, 0, "auto");
  }

  lemma B7NoAuto()
    ensures CodeAbsent(B7, "auto")
  {
    assert CodeAbsentFrom(B7, 0, "auto");
    CodeAbsentAt(B7, 0, "auto");
  }

  lemma B8NoAuto()
    ensures CodeAbsent(B8, "auto")
  {
    assert CodeAbsentFrom(B8, 0, "auto");
    CodeAbsentAt(B8, 0, "auto");
  }

  lemma B9NoAuto()
    ensures CodeAbsent(B9, "auto")
  {
    assert CodeAbsentFrom(B9, 0, "auto");
    CodeAbsentAt(B9, 0, "auto");
  }

  lemma B10NoAuto()
    ensures CodeAbsent(B10, "auto")
  {
    assert CodeAbsentFrom(B10, 0, "auto");
    CodeAbsentAt(B10, 0, "auto");
  }

  lemma B11NoAuto()
    ensures CodeAbsent(B11, "auto")
  {
    assert CodeAbsentFrom(B11, 0, "auto");
    CodeAbsentAt(B11, 0, "auto");
  }

  lemma B12NoAuto()
    ensures CodeAbsent(B12, "auto")
  {
    assert CodeAbsentFrom(B12, 0, "auto");
    CodeAbsentAt(B12, 0, "auto");
  }

  lemma B13NoAuto()
    ensures CodeAbsent(B13, "auto")
  {
    assert CodeAbsentFrom(B13, 0, "auto");
    CodeAbsentAt(B13, 0, "auto");
  }

  lemma P1NoAuto()
    ensures CodeAbsent(P1, "auto")
  {
    B0NoAuto();
    B1NoAuto();
    CodeAbsentAppend(B0, B1, "auto");
  }

  lemma P2NoAuto()
    ensures CodeAbsent(P2, "auto")
  {
    P1NoAuto();
    B2NoAuto();
    CodeAbsentAppend(P1, B2, "auto");
  }

  lemma P3NoAuto()
    ensures CodeAbsent(P3, "auto")
  {
    P2NoAuto();
    B3NoAuto();
    CodeAbsentAppend(P2, B3, "auto");
  }

  lemma P4NoAuto()
    ensures CodeAbsent(P4, "auto")
  {
    P3NoAuto();
    B4NoAuto();
    CodeAbsentAppend(P3, B4, "auto");
  }

  lemma P5NoAuto()
    ensures CodeAbsent(P5, "auto")
  {
    P4NoAuto();
    B5NoAuto();
    CodeAbsentAppend(P4, B5, "auto");
  }

  lemma P6NoAuto()
    ensures CodeAbsent(P6, "auto")
  {
    P5NoAuto();
    B6NoAuto();
    CodeAbsentAppend(P5, B6, "auto");
  }

  lemma P7NoAuto()
    ensures CodeAbsent(P7, "auto")
  {
    P6NoAuto();
    B7NoAuto();
    CodeAbsentAppend(P6, B7, "auto");
  }

  lemma P8NoAuto()
    ensures CodeAbsent(P8, "auto")
  {
    P7NoAuto();
    B8NoAuto();
    CodeAbsentAppend(P7, B8, "auto");
  }

  lemma P9NoAuto()
    ensures CodeAbsent(P9, "auto")
  {
    P8NoAuto();
    B9NoAuto();
    CodeAbsentAppend(P8, B9, "auto");
  }

  lemma P10NoAuto()
    ensures CodeAbsent(P10, "auto")
  {
    P9NoAuto();
    B10NoAuto();
    CodeAbsentAppend(P9, B10, "auto");
  }

  lemma P11NoAuto()
    ensures CodeAbsent(P11, "auto")
  {
    P10NoAuto();
    B11NoAuto();
    CodeAbsentAppend(P10, B11, "auto");
  }

  lemma P12NoAuto()
    ensures CodeAbsent(P12, "auto")
  {
    P11NoAuto();
    B12NoAuto();
    CodeAbsentAppend(P11, B12, "auto");
  }

  lemma P13NoAuto()
    ensures CodeAbsent(P13, "auto")
  {
    P12NoAuto();
    B13NoAuto();
    CodeAbsentAppend(P12, B13, "auto");
  }

  lemma CodeAbsentAfterHead(t: seq<(string, string)>, head: (string, string), rest: seq<(string, string)>, code: string)
    requires t == [head] + rest && CodeAbsent(rest, code)
    ensures forall k :: 0 < k < |t| ==> t[k].0 != code
  {
    forall k | 0 < k < |t| ensures t[k].0 != code {
      assert t[k] == rest[k - 1];
    }
  }

  /** Only the leading entry has the code 'auto', stated for all entries. */
  lemma AutoOnlyAfterHead()
    ensures Languages[0] == ("auto", "Auto Detect")
    ensures forall k :: 0 < k < |Languages| ==> Languages[k].0 != "auto"
  {
    P13NoAuto();
    CodeAbsentAfterHead(Languages, ("auto", "Auto Detect"), P13, "auto");
  }

  /** In a table that starts with ("auto", "Auto Detect") and has 'auto'
      nowhere else, the code looked up for a listed name is itself listed,
      and it is 'auto' only for "Auto Detect". */
  lemma CodeOfListedName(t: seq<(string, string)>, name: string)
    requires name in NamesOf(t)
    requires |t| > 0 && t[0] == ("auto", "Auto Detect")
    requires forall k :: 0 < k < |t| ==> t[k].0 != "auto"
    ensures NameOf(t, CodeFor(t, name)).Some?
    ensures name != "Auto Detect" ==> CodeFor(t, name) != "auto"
  {
    var i :| 0 <= i < |t| && NamesOf(t)[i] == name;
    var k :| 0 <= k < |t| && t[k] == (CodeFor(t, name), name) && forall j :: 0 <= j < k ==> t[j].1 != name;
  }

  /** The default target 'en' is a code of the table. */
  lemma EnglishListed()
    ensures NameOf(Languages, "en").Some?
  {
    assert Languages[23] == ("en", "English");
  }
}
