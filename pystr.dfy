/**
 * The few Python string built-ins the repository's code relies on, written out
 * over `string` (a sequence of Unicode scalar values, as a Python `str` is):
 * `str.isspace`, `str.strip()`, `str.split()`, `str.split(sep)`, `sep.join`,
 * `str.replace` and an ASCII `str.lower`.
 */
module PyStr {

  /** Python's `str.isspace()` for one character: ASCII whitespace, the
      information separators U+001C..U+001F, and the Unicode space separators. */
  predicate IsSpace(c: char)
  {
    var n := c as int;
    (9 <= n <= 13) || (28 <= n <= 32) || n == 0x85 || n == 0xA0 || n == 0x1680
    || (0x2000 <= n <= 0x200A) || n == 0x2028 || n == 0x2029 || n == 0x202F
    || n == 0x205F || n == 0x3000
  }

  predicate NoSpace(s: string)
  {
    forall i :: 0 <= i < |s| ==> !IsSpace(s[i])
  }

  predicate AllSpace(s: string)
  {
    forall i :: 0 <= i < |s| ==> IsSpace(s[i])
  }

  /** Lower-case ASCII letters are not whitespace. */
  lemma LowerLettersNoSpace(s: string)
    requires forall i :: 0 <= i < |s| ==> 'a' <= s[i] <= 'z'
    ensures NoSpace(s)
  {
  }

  // ---------------------------------------------------------------------------
  // str.strip()

  /** The end of the whitespace run that starts at `i`. */
  function SpaceEnd(s: string, i: nat): (r: nat)
    requires i <= |s|
    ensures i <= r <= |s|
    ensures r == |s| || !IsSpace(s[r])
    decreases |s| - i
  {
    if i < |s| && IsSpace(s[i]) then SpaceEnd(s, i + 1) else i
  }

  lemma {:induction false} SpaceEndAllSpace(s: string, i: nat)
    requires i <= |s|
    ensures AllSpace(s[i..SpaceEnd(s, i)])
    decreases |s| - i
  {
    if i < |s| && IsSpace(s[i]) {
      SpaceEndAllSpace(s, i + 1);
      var r := SpaceEnd(s, i);
      forall k | i < k < r ensures IsSpace(s[k]) {
        assert s[i + 1..r][k - i - 1] == s[k];
      }
    }
  }

  /** The start of the whitespace run that ends at `j`, going no further left
      than `i`. */
  function SpaceStart(s: string, i: nat, j: nat): (r: nat)
    requires i <= j <= |s|
    ensures i <= r <= j
    ensures r == i || !IsSpace(s[r - 1])
    decreases j - i
  {
    if i < j && IsSpace(s[j - 1]) then SpaceStart(s, i, j - 1) else j
  }

  lemma {:induction false} SpaceStartAllSpace(s: string, i: nat, j: nat)
    requires i <= j <= |s|
    ensures AllSpace(s[SpaceStart(s, i, j)..j])
    decreases j - i
  {
    if i < j && IsSpace(s[j - 1]) {
      SpaceStartAllSpace(s, i, j - 1);
      var r := SpaceStart(s, i, j);
      forall k | r <= k < j ensures IsSpace(s[k]) {
        if k < j - 1 { assert s[r..j - 1][k - r] == s[k]; }
      }
    }
  }

  /** Python's `str.strip()`: the text without its leading and trailing
      whitespace. */
  function Strip(s: string): (r: string)
    ensures r == [] || (!IsSpace(r[0]) && !IsSpace(r[|r| - 1]))
  {
    var i := SpaceEnd(s, 0);
    s[i..SpaceStart(s, i, |s|)]
  }

  /** The stripped text is a slice of `s`, and what was cut off on either side
      is all whitespace. */
  lemma StripSlice(s: string) returns (i: nat)
    ensures i + |Strip(s)| <= |s| && Strip(s) == s[i..i + |Strip(s)|]
    ensures AllSpace(s[..i]) && AllSpace(s[i + |Strip(s)|..])
  {
    i := SpaceEnd(s, 0);
    SpaceEndAllSpace(s, 0);
    var j := SpaceStart(s, i, |s|);
    SpaceStartAllSpace(s, i, |s|);
    assert s[0..i] == s[..i];
    assert Strip(s) == s[i..j];
    assert s[j..|s|] == s[j..];
  }

  /** `s.strip()` is empty exactly when `s` is whitespace only. */
  lemma StripEmptyIffAllSpace(s: string)
    ensures Strip(s) == [] <==> AllSpace(s)
  {
    var r := Strip(s);
    var i := StripSlice(s);
    if r == [] {
      forall k | 0 <= k < |s| ensures IsSpace(s[k]) {
        if k < i { assert s[..i][k] == s[k]; } else { assert s[i..][k - i] == s[k]; }
      }
    } else {
      assert s[i] == r[0];
    }
  }

  /** Text that neither starts nor ends with whitespace is its own strip. */
  lemma StripUnchanged(s: string)
    requires s == [] || (!IsSpace(s[0]) && !IsSpace(s[|s| - 1]))
    ensures Strip(s) == s
  {
    assert s[0..|s|] == s;
  }

  // ---------------------------------------------------------------------------
  // str.split() with no argument

  /** The end of the non-whitespace run that starts at `i`. */
  function WordEnd(s: string, i: nat): (r: nat)
    requires i <= |s|
    ensures i <= r <= |s|
    ensures r == |s| || IsSpace(s[r])
    ensures i < |s| && !IsSpace(s[i]) ==> r > i
    decreases |s| - i
  {
    if i < |s| && !IsSpace(s[i]) then WordEnd(s, i + 1) else i
  }

  lemma {:induction false} WordEndNoSpace(s: string, i: nat)
    requires i <= |s|
    ensures NoSpace(s[i..WordEnd(s, i)])
    decreases |s| - i
  {
    if i < |s| && !IsSpace(s[i]) {
      WordEndNoSpace(s, i + 1);
      var r := WordEnd(s, i);
      forall k | i < k < r ensures !IsSpace(s[k]) {
        assert s[i + 1..r][k - i - 1] == s[k];
      }
    }
  }

  /** The words of `s` as Python's `str.split()` returns them: the maximal
      runs of non-whitespace characters, left to right. */
  function SplitWhitespace(s: string): (r: seq<string>)
    ensures forall k :: 0 <= k < |r| ==> r[k] != [] && NoSpace(r[k])
    decreases |s|
  {
    var i := SpaceEnd(s, 0);
    if i == |s| then []
    else
      var j := WordEnd(s, i);
      WordEndNoSpace(s, i);
      [s[i..j]] + SplitWhitespace(s[j..])
  }

  /** Text without whitespace is one word. */
  lemma SplitSingleWord(s: string)
    requires s != [] && NoSpace(s)
    ensures SplitWhitespace(s) == [s]
  {
    WordEndWhole(s, 0);
    assert s[0..|s|] == s;
    assert SplitWhitespace(s[|s|..]) == [];
  }

  lemma {:induction false} WordEndWhole(s: string, i: nat)
    requires i <= |s| && NoSpace(s)
    ensures WordEnd(s, i) == |s|
    decreases |s| - i
  {
    if i < |s| { WordEndWhole(s, i + 1); }
  }

  /** `s[i..j]` is a maximal non-whitespace run of `s`. */
  ghost predicate IsWordAt(s: string, i: int, j: int)
  {
    0 <= i < j <= |s| && NoSpace(s[i..j])
    && (i == 0 || IsSpace(s[i - 1])) && (j == |s| || IsSpace(s[j]))
  }

  ghost predicate IsWordOf(w: string, s: string)
  {
    exists i, j :: IsWordAt(s, i, j) && s[i..j] == w
  }

  lemma NoSpaceAt(s: string, i: int, j: int, k: int)
    requires 0 <= i <= k < j <= |s| && NoSpace(s[i..j])
    ensures !IsSpace(s[k])
  {
    assert s[i..j][k - i] == s[k];
  }

  lemma AllSpaceAt(s: string, i: int, j: int, k: int)
    requires 0 <= i <= k < j <= |s| && AllSpace(s[i..j])
    ensures IsSpace(s[k])
  {
    assert s[i..j][k - i] == s[k];
  }

  /** A word of a suffix that does not start the suffix is a word of the whole
      text. */
  lemma WordOfSuffix(s: string, j: nat, a: int, b: int)
    requires j <= |s| && IsWordAt(s[j..], a, b) && a > 0
    ensures IsWordAt(s, j + a, j + b) && s[j + a..j + b] == s[j..][a..b]
  {
    var t := s[j..];
    assert t[a - 1] == s[j + a - 1];
    if j + b < |s| { assert t[b] == s[j + b]; }
    assert s[j + a..j + b] == t[a..b];
  }

  /** A word of the text that lies wholly after position `j`, where `s[j]` is
      whitespace, is a word of the suffix `s[j..]`. */
  lemma WordInSuffix(s: string, j: nat, a: int, b: int)
    requires j < |s| && IsSpace(s[j]) && IsWordAt(s, a, b) && a >= j
    ensures a > j && IsWordAt(s[j..], a - j, b - j) && s[j..][a - j..b - j] == s[a..b]
  {
    NoSpaceAt(s, a, b, a);
    var t := s[j..];
    assert t[a - j - 1] == s[a - 1];
    if b < |s| { assert t[b - j] == s[b]; }
    assert t[a - j..b - j] == s[a..b];
  }

  /** No maximal run starts before the end of the first run `s[i..j]`,
      except that run itself. */
  lemma FirstWord(s: string, i: nat, j: nat, a: int, b: int)
    requires i < j <= |s| && AllSpace(s[..i]) && NoSpace(s[i..j])
    requires j == |s| || IsSpace(s[j])
    requires IsWordAt(s, a, b) && a < j
    ensures a == i && b == j
  {
    NoSpaceAt(s, a, b, a);
    if a < i {
      AllSpaceAt(s, 0, i, a);
    } else if a > i {
      NoSpaceAt(s, i, j, a - 1);
    } else if b < j {
      NoSpaceAt(s, i, j, b);
    } else if b > j {
      NoSpaceAt(s, a, b, j);
    }
  }

  /** How `str.split()` takes its first word: after the leading whitespace
      `s[..i]` comes the run `s[i..j]`, which ends the text or is followed by
      whitespace, and the remaining words are those of `s[j..]`. */
  lemma SplitWhitespaceStep(s: string) returns (i: nat, j: nat)
    requires SpaceEnd(s, 0) < |s|
    ensures i < j <= |s| && AllSpace(s[..i]) && NoSpace(s[i..j])
    ensures j == |s| || IsSpace(s[j])
    ensures SplitWhitespace(s) == [s[i..j]] + SplitWhitespace(s[j..])
  {
    i := SpaceEnd(s, 0);
    j := WordEnd(s, i);
    SpaceEndAllSpace(s, 0);
    assert s[0..i] == s[..i];
    WordEndNoSpace(s, i);
  }

  /** A string is among the words `str.split()` returns exactly when it is a
      maximal run of non-whitespace characters of the text. */
  lemma {:induction false} SplitWhitespaceWords(s: string, w: string)
    ensures w in SplitWhitespace(s) <==> IsWordOf(w, s)
    decreases |s|
  {
    if SpaceEnd(s, 0) == |s| {
      SpaceEndAllSpace(s, 0);
      assert s[0..|s|] == s;
      if IsWordOf(w, s) {
        var a, b :| IsWordAt(s, a, b) && s[a..b] == w;
        NoSpaceAt(s, a, b, a);
        AllSpaceAt(s, 0, |s|, a);
      }
    } else {
      var i, j := SplitWhitespaceStep(s);
      var rest := s[j..];
      SplitWhitespaceWords(rest, w);
      if w == s[i..j] {
        if i > 0 { AllSpaceAt(s, 0, i, i - 1); }
        assert IsWordAt(s, i, j);
      } else {
        if w in SplitWhitespace(rest) {
          var a, b :| IsWordAt(rest, a, b) && rest[a..b] == w;
          if a == 0 { NoSpaceAt(rest, a, b, 0); }
          WordOfSuffix(s, j, a, b);
        }
        if IsWordOf(w, s) {
          var a, b :| IsWordAt(s, a, b) && s[a..b] == w;
          if a < j {
            FirstWord(s, i, j, a, b);
          } else {
            WordInSuffix(s, j, a, b);
          }
        }
      }
    }
  }

  // ---------------------------------------------------------------------------
  // str.split(sep) and sep.join(parts) for a one-character separator

  /** `sep.join(parts)`. */
  function Join(parts: seq<string>, sep: char): string
  {
    if |parts| == 0 then ""
    else if |parts| == 1 then parts[0]
    else parts[0] + [sep] + Join(parts[1..], sep)
  }

  /** Index of the first occurrence of `c` in `s`. */
  function FirstIndex(s: string, c: char): (i: nat)
    requires c in s
    ensures i < |s| && s[i] == c && c !in s[..i]
  {
    if s[0] == c then 0 else 1 + FirstIndex(s[1..], c)
  }

  /** Python's `s.split(sep)`: the pieces between occurrences of `sep`. There is
      always at least one piece, no piece holds the separator, and joining the
      pieces with the separator gives back `s`. */
  function Split(s: string, sep: char): (r: seq<string>)
    ensures |r| >= 1
    ensures forall k :: 0 <= k < |r| ==> sep !in r[k]
    ensures Join(r, sep) == s
    decreases |s|
  {
    if sep !in s then [s]
    else
      var i := FirstIndex(s, sep);
      var r := [s[..i]] + Split(s[i + 1..], sep);
      assert r[1..] == Split(s[i + 1..], sep);
      assert s == s[..i] + [sep] + s[i + 1..];
      r
  }

  /** Splitting what was joined gives back the pieces, provided there is at
      least one piece and no piece holds the separator. */
  lemma {:induction false} SplitJoin(parts: seq<string>, sep: char)
    requires |parts| >= 1
    requires forall k :: 0 <= k < |parts| ==> sep !in parts[k]
    ensures Split(Join(parts, sep), sep) == parts
    decreases |parts|
  {
    if |parts| > 1 {
      var s := Join(parts, sep);
      var p := parts[0];
      assert s == p + ([sep] + Join(parts[1..], sep));
      assert s[|p|] == sep;
      assert s[..|p|] == p;
      assert sep in s;
      var i := FirstIndex(s, sep);
      assert s[i + 1..] == Join(parts[1..], sep);
      SplitJoin(parts[1..], sep);
    }
  }

  // ---------------------------------------------------------------------------
  // str.replace(pat, rep)

  /** Python's `s.replace(pat, rep)` for a non-empty pattern: occurrences are
      found left to right and do not overlap. */
  function Replace(s: string, pat: string, rep: string): (r: string)
    requires |pat| > 0
    ensures |rep| >= |pat| ==> |r| >= |s|
    decreases |s|
  {
    if |s| == 0 then ""
    else if pat <= s then rep + Replace(s[|pat|..], pat, rep)
    else [s[0]] + Replace(s[1..], pat, rep)
  }

  /** `pat` occurs in `s` starting at position `i`. */
  predicate OccursAt(pat: string, s: string, i: int)
  {
    0 <= i && i + |pat| <= |s| && s[i..i + |pat|] == pat
  }

  /** Text in which the pattern does not occur is left as it is. */
  lemma {:induction false} ReplaceAbsent(s: string, pat: string, rep: string)
    requires |pat| > 0
    requires forall i :: 0 <= i <= |s| ==> !OccursAt(pat, s, i)
    ensures Replace(s, pat, rep) == s
    decreases |s|
  {
    if |s| > 0 {
      assert !OccursAt(pat, s, 0);
      assert |pat| <= |s| ==> s[..|pat|] != pat;
      forall i | 0 <= i <= |s[1..]| ensures !OccursAt(pat, s[1..], i) {
        assert !OccursAt(pat, s, i + 1);
        if i + |pat| <= |s[1..]| { assert s[1..][i..i + |pat|] == s[i + 1..i + 1 + |pat|]; }
      }
      ReplaceAbsent(s[1..], pat, rep);
    }
  }

  // ---------------------------------------------------------------------------
  // str.lower(), ASCII part

  function LowerChar(c: char): char
  {
    if 'A' <= c <= 'Z' then (c as int + 32) as char else c
  }

  /** `s.lower()` restricted to the ASCII letters: every capital becomes
      its small letter, and every other character stays where it is. */
  function Lower(s: string): (r: string)
    ensures |r| == |s| && forall i :: 0 <= i < |s| ==> r[i] == LowerChar(s[i])
    ensures forall i :: 0 <= i < |r| ==> !('A' <= r[i] <= 'Z')
    ensures forall i :: 0 <= i < |s| && !('A' <= s[i] <= 'Z') ==> r[i] == s[i]
  {
    seq(|s|, i requires 0 <= i < |s| => LowerChar(s[i]))
  }

  /** Lowering lowered text changes nothing. */
  lemma LowerIdempotent(s: string)
    ensures Lower(Lower(s)) == Lower(s)
  {
  }
}
