/**
 * Language_Translator/app.py: the logic of the translation page around the
 * language table. It covers the gTTS code mapping, the clipboard escape, the
 * validation of a request and the shortening of history texts. A `Session` class
 * holds the fields of `st.session_state` that the page reads and writes.
 * Each rerun of the page first looks up the stored codes to preselect the two
 * select boxes (lines 274 and 331-334), and those lookups raise when a code
 * has no place in its box; `Session.Renderable` says they succeed.
 */
module Translator {
  import opened Wrappers
  import PyStr
  import LanguageTable

  // ---------------------------------------------------------------------------
  // Text to speech

  /** The code handed to gTTS: the two Chinese variants of the table are
      renamed to gTTS's spelling, every other code is passed through. */
  function TtsCode(langCode: string): (r: string)
    ensures langCode == "zh-CN" ==> r == "zh"
    ensures langCode == "zh-TW" ==> r == "zh-tw"
    ensures langCode != "zh-CN" && langCode != "zh-TW" ==> r == langCode
    ensures r != "zh-CN" && r != "zh-TW"
  {
    if langCode == "zh-CN" then "zh"
    else if langCode == "zh-TW" then "zh-tw"
    else langCode
  }

  /** Mapping a mapped code again changes nothing. */
  lemma TtsCodeIdempotent(langCode: string)
    ensures TtsCode(TtsCode(langCode)) == TtsCode(langCode)
  {
  }

  // ---------------------------------------------------------------------------
  // The clipboard escape

  /** `text.replace('`', '\\`').replace('${', '\\${')`, the text placed
      between the backticks of a JavaScript template literal. */
  function Escape(text: string): (r: string)
    ensures |r| >= |text|
  {
    PyStr.Replace(PyStr.Replace(text, "`", "\\`"), "${", "\\${")
  }

  /** `pat` occurs nowhere in `s`. */
  predicate Absent(pat: string, s: string)
  {
    forall i :: 0 <= i <= |s| ==> !PyStr.OccursAt(pat, s, i)
  }

  /** Text with neither a backtick nor `${` is passed through unchanged. */
  lemma EscapeUnchanged(text: string)
    requires Absent("`", text) && Absent("${", text)
    ensures Escape(text) == text
  {
    PyStr.ReplaceAbsent(text, "`", "\\`");
    PyStr.ReplaceAbsent(text, "${", "\\${");
  }

  /** Every backtick after the first character follows a backslash. */
  predicate EscapedInside(s: string)
  {
    forall k :: 0 < k < |s| && s[k] == '`' ==> s[k - 1] == '\\'
  }

  predicate NoLeadingBacktick(s: string)
  {
    s == [] || s[0] != '`'
  }

  /** After the first replacement every backtick follows a backslash. */
  lemma {:induction false} BacktickPass(s: string)
    ensures EscapedInside(PyStr.Replace(s, "`", "\\`"))
    ensures NoLeadingBacktick(PyStr.Replace(s, "`", "\\`"))
    decreases |s|
  {
    if s != [] {
      var rest := PyStr.Replace(s[1..], "`", "\\`");
      BacktickPass(s[1..]);
      if s[0] == '`' {
        assert "`" <= s;
        assert PyStr.Replace(s, "`", "\\`") == "\\`" + rest;
      } else {
        assert !("`" <= s);
        assert PyStr.Replace(s, "`", "\\`") == [s[0]] + rest;
      }
    }
  }

  /** The second replacement adds no unescaped backtick. */
  lemma {:induction false} DollarPass(t: string)
    requires EscapedInside(t)
    ensures EscapedInside(PyStr.Replace(t, "${", "\\${"))
    ensures NoLeadingBacktick(t) ==> NoLeadingBacktick(PyStr.Replace(t, "${", "\\${"))
    decreases |t|
  {
    if t != [] {
      if "${" <= t {
        var rest := PyStr.Replace(t[2..], "${", "\\${");
        assert EscapedInside(t[2..]) by {
          forall k | 0 < k < |t[2..]| && t[2..][k] == '`' ensures t[2..][k - 1] == '\\' {
            assert t[k + 2] == '`';
          }
        }
        assert NoLeadingBacktick(t[2..]) by {
          if |t| > 2 { assert t[1] == '{'; }
        }
        DollarPass(t[2..]);
        assert PyStr.Replace(t, "${", "\\${") == "\\${" + rest;
      } else {
        var rest := PyStr.Replace(t[1..], "${", "\\${");
        assert EscapedInside(t[1..]) by {
          forall k | 0 < k < |t[1..]| && t[1..][k] == '`' ensures t[1..][k - 1] == '\\' {
            assert t[k + 1] == '`';
          }
        }
        DollarPass(t[1..]);
        if |t| > 1 && t[1] == '`' {
          assert t[0] == '\\';
        }
        assert PyStr.Replace(t, "${", "\\${") == [t[0]] + rest;
      }
    }
  }

  /** Every backtick of the escaped text is preceded by a backslash. */
  lemma EscapeBackticks(text: string)
    ensures forall k :: 0 <= k < |Escape(text)| && Escape(text)[k] == '`' ==> k > 0 && Escape(text)[k - 1] == '\\'
  {
    var t := PyStr.Replace(text, "`", "\\`");
    BacktickPass(text);
    DollarPass(t);
  }

  // ---------------------------------------------------------------------------
  // How JavaScript reads a template literal

  /** The string value of the body of a template literal, read up to its
      closing backtick, after the TemplateCharacter grammar of ECMA-262 and
      its template value (TV) rules. `None` stands
      for a body that does not stand for a string of its own: an unescaped
      backtick ends the literal early, and an unescaped `${` opens a
      substitution. A carriage return, alone or followed by a line feed,
      stands for a line feed. Only the escapes `\\`, `\``, `\$`, `\r` and
      `\n` are read; other escape sequences are also `None` here. */
  function TemplateValue(body: string): (r: Option<string>)
    ensures r.Some? ==> |r.value| <= |body|
  {
    if body == [] then Some([])
    else if body[0] == '\\' then
      if |body| >= 2 && body[1] in "\\`$rn" then
        match TemplateValue(body[2..])
        case Some(v) => Some([EscapedChar(body[1])] + v)
        case None => None
      else None
    else if body[0] == '`' then None
    else if |body| >= 2 && body[0] == '$' && body[1] == '{' then None
    else if body[0] == '\r' then
      var rest := if |body| >= 2 && body[1] == '\n' then body[2..] else body[1..];
      match TemplateValue(rest)
      case Some(v) => Some(['\n'] + v)
      case None => None
    else
      match TemplateValue(body[1..])
      case Some(v) => Some([body[0]] + v)
      case None => None
  }

  /** The character an escape sequence `\c` stands for. */
  function EscapedChar(c: char): char
  {
    if c == 'r' then '\r' else if c == 'n' then '\n' else c
  }

  /** The escape as written leaves a backslash alone, so a backslash in front
      of a backtick turns the added backslash into an escaped one and the
      backtick closes the literal: the text `\`` breaks the copied script. */
  lemma EscapeBackslashBacktick()
    ensures Escape("\\`") == "\\\\`"
    ensures TemplateValue(Escape("\\`")) == None
  {
    var s := "\\`";
    assert s[0] == '\\';
    assert !("`" <= s);
    assert "`" <= s[1..];
    assert PyStr.Replace(s[1..][1..], "`", "\\`") == "";
    assert PyStr.Replace(s, "`", "\\`") == "\\\\`";
    var e := "\\\\`";
    forall i | 0 <= i <= |e| ensures !PyStr.OccursAt("${", e, i) {
      if i + 2 <= |e| { assert e[i] != '$'; }
    }
    PyStr.ReplaceAbsent(e, "${", "\\${");
    assert TemplateValue("`") == None;
  }

  /** The escape as written also leaves a carriage return alone, and the
      template literal reads it as a line feed. */
  lemma EscapeCarriageReturn()
    ensures Escape("\r") == "\r"
    ensures TemplateValue(Escape("\r")) == Some("\n")
  {
    var s := "\r";
    forall i | 0 <= i <= |s| ensures !PyStr.OccursAt("`", s, i) {
      if i + 1 <= |s| { assert s[i] != '`'; }
    }
    PyStr.ReplaceAbsent(s, "`", "\\`");
    forall i | 0 <= i <= |s| ensures !PyStr.OccursAt("${", s, i) {
      assert |s| < |"${"|;
    }
    PyStr.ReplaceAbsent(s, "${", "\\${");
    assert s[0] == '\r' && |s| == 1 && s[1..] == [];
    assert s[0] != '\\' && s[0] != '`';
    assert TemplateValue(s[1..]) == Some([]);
    assert TemplateValue(s) == Some(['\n'] + []);
    assert ['\n'] + [] == "\n";
  }

  /** The escape with backslashes escaped as well: each backslash, backtick
      and dollar sign is preceded by a backslash, and a carriage return is
      written as the escape `\r`. */
  function EscapeTemplate(text: string): (r: string)
    ensures |r| >= |text|
  {
    if text == [] then []
    else if text[0] == '\\' || text[0] == '`' || text[0] == '$' then
      ['\\', text[0]] + EscapeTemplate(text[1..])
    else if text[0] == '\r' then ['\\', 'r'] + EscapeTemplate(text[1..])
    else [text[0]] + EscapeTemplate(text[1..])
  }

  /** JavaScript reads back exactly the text that was escaped. */
  lemma {:induction false} EscapeTemplateRoundTrip(text: string)
    ensures TemplateValue(EscapeTemplate(text)) == Some(text)
    decreases |text|
  {
    if text != [] {
      EscapeTemplateRoundTrip(text[1..]);
      var e := EscapeTemplate(text);
      var rest := EscapeTemplate(text[1..]);
      if text[0] == '\\' || text[0] == '`' || text[0] == '$' {
        assert e == ['\\', text[0]] + rest && e[2..] == rest;
      } else if text[0] == '\r' {
        assert e == ['\\', 'r'] + rest && e[2..] == rest;
      } else {
        assert e == [text[0]] + rest && e[1..] == rest;
      }
      assert text == [text[0]] + text[1..];
    }
  }

  // ---------------------------------------------------------------------------
  // History texts

  /** The history shows at most this many characters of a text. */
  const PreviewLength: nat := 100

  /** `s[:100] + "..." if len(s) > 100 else s`. */
  function Preview(s: string): (r: string)
    ensures |s| <= PreviewLength ==> r == s
    ensures |s| > PreviewLength ==> |r| == PreviewLength + 3 && r[..PreviewLength] == s[..PreviewLength]
                                    && r[PreviewLength..] == "..."
    ensures |r| <= PreviewLength + 3
  {
    if |s| > PreviewLength then s[..PreviewLength] + "..." else s
  }

  /** Shortening a shortened text changes nothing. */
  lemma PreviewIdempotent(s: string)
    ensures Preview(Preview(s)) == Preview(s)
  {
    if |s| > PreviewLength {
      assert Preview(s)[..PreviewLength] == s[..PreviewLength];
    }
  }

  // ---------------------------------------------------------------------------
  // Validation

  /** Why a translate request is turned down. */
  datatype Rejection = EmptyText | SameLanguage

  /** The two checks before translating: the text must hold a character other
      than whitespace, and a source other than 'auto' must differ from the
      target. `None` lets the request through. */
  function Validate(sourceText: string, sourceLang: string, targetLang: string): (r: Option<Rejection>)
    ensures r == Some(EmptyText) <==> PyStr.AllSpace(sourceText)
    ensures r == Some(SameLanguage) <==> !PyStr.AllSpace(sourceText) && sourceLang != "auto" && sourceLang == targetLang
    ensures r == None <==> !PyStr.AllSpace(sourceText) && (sourceLang == "auto" || sourceLang != targetLang)
  {
    PyStr.StripEmptyIffAllSpace(sourceText);
    if PyStr.Strip(sourceText) == [] then Some(EmptyText)
    else if sourceLang != "auto" && sourceLang == targetLang then Some(SameLanguage)
    else None
  }

  // ---------------------------------------------------------------------------
  // The two select boxes

  /** `xs.index(x)`: the first position of `x`; `None` is the `ValueError`. */
  function IndexOf(xs: seq<string>, x: string): (r: Option<nat>)
    ensures r.Some? <==> x in xs
    ensures r.Some? ==> r.value < |xs| && xs[r.value] == x && x !in xs[..r.value]
  {
    if xs == [] then None
    else if xs[0] == x then Some(0)
    else
      match IndexOf(xs[1..], x)
      case None => None
      case Some(i) =>
        assert xs[..i + 1] == [xs[0]] + xs[1..][..i];
        Some(i + 1)
  }

  /** The names of `names` other than `x`, in order. */
  function Without(names: seq<string>, x: string): (r: seq<string>)
    ensures forall n :: n in r <==> n in names && n != x
  {
    if names == [] then []
    else (if names[0] == x then [] else [names[0]]) + Without(names[1..], x)
  }

  /** The options of the source box: every display name. */
  function SourceNames(): seq<string>
  {
    LanguageTable.NamesOf(LanguageTable.Languages)
  }

  /** The options of the target box: every display name but "Auto Detect". */
  function TargetNames(): seq<string>
  {
    Without(SourceNames(), "Auto Detect")
  }

  /** The preselected position of the source box for a stored code. */
  function SourceIndex(code: string): Option<nat>
  {
    match LanguageTable.NameOf(LanguageTable.Languages, code)
    case None => None
    case Some(name) => IndexOf(SourceNames(), name)
  }

  /** The preselected position of the target box for a stored code. */
  function TargetIndex(code: string): Option<nat>
  {
    match LanguageTable.NameOf(LanguageTable.Languages, code)
    case None => None
    case Some(name) => IndexOf(TargetNames(), name)
  }

  lemma NameListed(code: string)
    requires LanguageTable.NameOf(LanguageTable.Languages, code).Some?
    ensures LanguageTable.NameOf(LanguageTable.Languages, code).value in SourceNames()
  {
    var t := LanguageTable.Languages;
    var k :| 0 <= k < |t| && t[k] == (code, LanguageTable.NameOf(t, code).value)
             && forall j :: 0 <= j < k ==> t[j].0 != code;
    assert SourceNames()[k] == t[k].1;
  }

  /** The source box can be preselected exactly for the codes of the table. */
  lemma SourceIndexFound(code: string)
    ensures SourceIndex(code).Some? <==> LanguageTable.NameOf(LanguageTable.Languages, code).Some?
  {
    if LanguageTable.NameOf(LanguageTable.Languages, code).Some? {
      NameListed(code);
    }
  }

  /** The target box can be preselected exactly for the codes of the table
      other than 'auto'. */
  lemma TargetIndexFound(code: string)
    ensures TargetIndex(code).Some? <==> LanguageTable.NameOf(LanguageTable.Languages, code).Some? && code != "auto"
  {
    if LanguageTable.NameOf(LanguageTable.Languages, code).Some? {
      NameListed(code);
      LanguageTable.AutoDetectOnlyForAuto(code);
    }
  }

  /** What `get_language_code` gives for an option of a box: a code of the
      table, and one other than 'auto' for every name but "Auto Detect". */
  lemma ChosenCode(name: string)
    requires name in SourceNames()
    ensures LanguageTable.NameOf(LanguageTable.Languages, LanguageTable.CodeFor(LanguageTable.Languages, name)).Some?
    ensures name != "Auto Detect" ==> LanguageTable.CodeFor(LanguageTable.Languages, name) != "auto"
  {
    LanguageTable.AutoOnlyAfterHead();
    LanguageTable.CodeOfListedName(LanguageTable.Languages, name);
  }

  /** One select box: the name preselected for the stored code, or the
      name picked instead, looked up back to its code. Left at its
      preselection, the box keeps the code. */
  method SelectCode(code: string, choice: Option<string>) returns (newCode: string)
    requires LanguageTable.NameOf(LanguageTable.Languages, code).Some?
    requires choice.Some? ==> choice.value in SourceNames()
    ensures newCode == if choice.None? then code else LanguageTable.CodeFor(LanguageTable.Languages, choice.value)
  {
    var name;
    if choice.None? {
      name := LanguageTable.NameOf(LanguageTable.Languages, code).value;
      LanguageTable.CodeOfNameOf(code);
    } else {
      name := choice.value;
    }
    newCode := LanguageTable.GetLanguageCode(name);
  }

  /** The code a box stores on a rerun: the stored code when the box is left
      at its preselection, else the code of the picked name. */
  function StoredCode(code: string, choice: Option<string>): string
  {
    if choice.None? then code else LanguageTable.CodeFor(LanguageTable.Languages, choice.value)
  }

  /** Both boxes, one after the other; the codes they leave can be
      preselected again. */
  method SelectCodes(sourceLang: string, targetLang: string, sourceChoice: Option<string>, targetChoice: Option<string>)
    returns (newSource: string, newTarget: string)
    requires Preselectable(sourceLang, targetLang)
    requires sourceChoice.Some? ==> sourceChoice.value in SourceNames()
    requires targetChoice.Some? ==> targetChoice.value in TargetNames()
    ensures newSource == StoredCode(sourceLang, sourceChoice)
    ensures newTarget == StoredCode(targetLang, targetChoice)
    ensures Preselectable(newSource, newTarget)
  {
    if sourceChoice.Some? { ChosenCode(sourceChoice.value); }
    if targetChoice.Some? { ChosenCode(targetChoice.value); }
    newSource := SelectCode(sourceLang, sourceChoice);
    newTarget := SelectCode(targetLang, targetChoice);
  }

  /** The source code is one of the table, the target one other than
      'auto'. */
  predicate Preselectable(sourceLang: string, targetLang: string)
  {
    && LanguageTable.NameOf(LanguageTable.Languages, sourceLang).Some?
    && LanguageTable.NameOf(LanguageTable.Languages, targetLang).Some?
    && targetLang != "auto"
  }

  /** The codes a new session starts with, 'auto' and 'en', can be
      preselected. */
  lemma DefaultsPreselectable()
    ensures Preselectable("auto", "en")
  {
    LanguageTable.AutoDetectCode();
    LanguageTable.EnglishListed();
  }

  /** Exactly for such codes do both lookups of a rerun succeed. */
  lemma PreselectableIffFound(sourceLang: string, targetLang: string)
    ensures Preselectable(sourceLang, targetLang) <==> SourceIndex(sourceLang).Some? && TargetIndex(targetLang).Some?
  {
    SourceIndexFound(sourceLang);
    TargetIndexFound(targetLang);
  }

  // ---------------------------------------------------------------------------
  // The session

  /** One entry of `translation_history`, texts already shortened and codes
      replaced by display names. */
  datatype HistoryEntry = HistoryEntry(timestamp: string, source: string, translation: string,
                                       sourceLang: string, targetLang: string)

  /** The display name the history shows for a stored code,
      `languages[code]`. `Translate` runs only on a drawable page, whose two
      codes are in the table, so the empty name given to an unknown code is
      never shown. */
  function LanguageName(code: string): string
  {
    match LanguageTable.NameOf(LanguageTable.Languages, code)
    case Some(name) => name
    case None => ""
  }

  /** What pressing Translate shows. */
  datatype Outcome = Rejected(reason: Rejection) | Failed(message: string) | Translated(text: string)

  class Session {
    var translatedText: string
    var translationHistory: seq<HistoryEntry>
    var sourceLang: string
    var targetLang: string
    var sourceText: string

    /** Both select boxes can be preselected from the stored codes; by
        `Preselectable`, these are the codes that have a place in their box. */
    predicate Renderable()
      reads this`sourceLang, this`targetLang
    {
      Preselectable(sourceLang, targetLang)
    }

    /** The defaults of a new session, lines 232-241; the page can draw them. */
    constructor()
      ensures translatedText == "" && translationHistory == [] && sourceText == ""
      ensures sourceLang == "auto" && targetLang == "en"
      ensures Renderable()
    {
      translatedText := "";
      translationHistory := [];
      sourceLang := "auto";
      targetLang := "en";
      sourceText := "";
      DefaultsPreselectable();
    }

    /** One rerun of the page up to the buttons: the text area's value is
        stored, then each box is preselected from its stored code and the
        code of the name it returns is stored. `None` is a box left at its
        preselection, which keeps the code, since name and code lookups are
        inverse. */
    method Render(textInput: string, sourceChoice: Option<string>, targetChoice: Option<string>)
      requires Renderable()
      requires sourceChoice.Some? ==> sourceChoice.value in SourceNames()
      requires targetChoice.Some? ==> targetChoice.value in TargetNames()
      modifies this
      ensures sourceText == textInput
      ensures sourceLang == StoredCode(old(sourceLang), sourceChoice)
      ensures targetLang == StoredCode(old(targetLang), targetChoice)
      ensures translatedText == old(translatedText) && translationHistory == old(translationHistory)
      ensures Renderable()
    {
      var newSource, newTarget := SelectCodes(sourceLang, targetLang, sourceChoice, targetChoice);
      sourceText := textInput;
      sourceLang := newSource;
      targetLang := newTarget;
    }

    /** The Swap button as written: the codes are exchanged, and a non-empty
        translation becomes the source text. */
    method SwapAsWritten()
      modifies this
      ensures sourceLang == old(targetLang) && targetLang == old(sourceLang)
      ensures old(translatedText) != "" ==> sourceText == old(translatedText) && translatedText == ""
      ensures old(translatedText) == "" ==> sourceText == old(sourceText) && translatedText == ""
      ensures translationHistory == old(translationHistory)
    {
      var temp := sourceLang;
      sourceLang := targetLang;
      targetLang := temp;
      if translatedText != "" {
        sourceText := translatedText;
        translatedText := "";
      }
    }

    /** The Swap button with the source 'auto' left alone: swapping puts
        'auto' into the target box, which has no place for it. Otherwise it
        does what the button does, and the page stays drawable. */
    method Swap()
      requires Renderable()
      modifies this
      ensures old(sourceLang) == "auto" ==>
                sourceLang == old(sourceLang) && targetLang == old(targetLang)
                && sourceText == old(sourceText) && translatedText == old(translatedText)
      ensures old(sourceLang) != "auto" ==>
                sourceLang == old(targetLang) && targetLang == old(sourceLang)
                && (old(translatedText) != "" ==> sourceText == old(translatedText) && translatedText == "")
                && (old(translatedText) == "" ==> sourceText == old(sourceText) && translatedText == "")
      ensures translationHistory == old(translationHistory)
      ensures Renderable()
    {
      if sourceLang == "auto" {
        return;
      }
      SwapAsWritten();
    }

    /** The Translate button. `result` is what `translate_text` returned:
        the translation, or the error message. A request that fails
        validation or translation leaves the session as it was; a
        translation is stored and appended to the history, texts shortened
        and codes shown by their names. */
    method Translate(result: Result<string, string>, timestamp: string) returns (outcome: Outcome)
      requires Renderable()
      modifies this
      ensures sourceLang == old(sourceLang) && targetLang == old(targetLang) && sourceText == old(sourceText)
      ensures Renderable()
      ensures Validate(sourceText, sourceLang, targetLang).Some? ==>
                outcome == Rejected(Validate(sourceText, sourceLang, targetLang).value)
                && translatedText == old(translatedText) && translationHistory == old(translationHistory)
      ensures Validate(sourceText, sourceLang, targetLang).None? && result.Failure? ==>
                outcome == Failed(result.error)
                && translatedText == old(translatedText) && translationHistory == old(translationHistory)
      ensures Validate(sourceText, sourceLang, targetLang).None? && result.Success? ==>
                outcome == Translated(result.value) && translatedText == result.value
                && translationHistory == old(translationHistory) + [HistoryEntry(timestamp,
                     Preview(sourceText), Preview(result.value),
                     LanguageName(sourceLang), LanguageName(targetLang))]
    {
      var rejection := Validate(sourceText, sourceLang, targetLang);
      if rejection.Some? {
        return Rejected(rejection.value);
      }
      if result.Failure? {
        return Failed(result.error);
      }
      translatedText := result.value;
      var entry := HistoryEntry(timestamp, Preview(sourceText), Preview(result.value),
                                LanguageName(sourceLang), LanguageName(targetLang));
      translationHistory := translationHistory + [entry];
      return Translated(result.value);
    }

    /** The Clear All button: both texts are emptied. */
    method Clear()
      modifies this
      ensures translatedText == "" && sourceText == ""
      ensures sourceLang == old(sourceLang) && targetLang == old(targetLang)
      ensures translationHistory == old(translationHistory)
    {
      translatedText := "";
      sourceText := "";
    }

    /** The Clear History button. */
    method ClearHistory()
      modifies this
      ensures translationHistory == []
      ensures translatedText == old(translatedText) && sourceText == old(sourceText)
      ensures sourceLang == old(sourceLang) && targetLang == old(targetLang)
    {
      translationHistory := [];
    }
  }

  /** The target code 'auto' cannot be preselected. */
  lemma AutoTargetUnrenderable()
    ensures TargetIndex("auto").None?
  {
    TargetIndexFound("auto");
  }

  /** Pressing Swap on a fresh session, as written, stores 'auto' as the
      target, and the next rerun's target lookup fails. */
  method SwapOnFreshSession() returns (s: Session)
    ensures fresh(s) && s.targetLang == "auto" && TargetIndex(s.targetLang).None? && !s.Renderable()
  {
    s := new Session();
    s.SwapAsWritten();
    AutoTargetUnrenderable();
  }
}
