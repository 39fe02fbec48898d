/**
 * Python's conversions between integers and decimal text: `str(n)` for an
 * `int`, and `int(s)` for a `str` (base 10), whose failure is a `ValueError`.
 */
module PyInt {
  import opened Wrappers
  import PyStr

  predicate IsDigit(c: char)
  {
    '0' <= c <= '9'
  }

  function DigitChar(d: nat): (c: char)
    requires d < 10
    ensures IsDigit(c) && (c as int) - ('0' as int) == d
  {
    ('0' as int + d) as char
  }

  /** Decimal digits of `n`, most significant first, without leading zeros. */
  function NatToDecimal(n: nat): (s: string)
    ensures |s| >= 1 && forall k :: 0 <= k < |s| ==> IsDigit(s[k])
  {
    if n < 10 then [DigitChar(n)] else NatToDecimal(n / 10) + [DigitChar(n % 10)]
  }

  /** Python's `str(n)`: a minus sign for negative numbers, then the digits. */
  function IntToStr(n: int): string
  {
    if n < 0 then "-" + NatToDecimal(-n) else NatToDecimal(n)
  }

  /** The body Python's `int()` accepts after the sign: a decimal digit, then
      more digits, each of which may follow a single underscore. */
  predicate DigitRun(d: string)
  {
    |d| >= 1 && IsDigit(d[0]) && DigitTail(d[1..])
  }

  predicate DigitTail(d: string)
    decreases |d|
  {
    if d == [] then true
    else if IsDigit(d[0]) then DigitTail(d[1..])
    else d[0] == '_' && |d| >= 2 && IsDigit(d[1]) && DigitTail(d[2..])
  }

  lemma {:induction false} AllDigitsTail(d: string)
    requires forall k :: 0 <= k < |d| ==> IsDigit(d[k])
    ensures DigitTail(d)
  {
    if d != [] { AllDigitsTail(d[1..]); }
  }

  /** The number the digits of `d` spell, underscores ignored. */
  function DigitsValue(d: string): nat
  {
    if |d| == 0 then 0
    else if IsDigit(d[|d| - 1]) then 10 * DigitsValue(d[..|d| - 1]) + ((d[|d| - 1] as int) - ('0' as int))
    else DigitsValue(d[..|d| - 1])
  }

  /** Python's `int(s)` on ASCII digits: surrounding whitespace is ignored,
      an optional `+` or `-` sign, then a digit run of the ASCII digits `0` to
      `9`; anything else raises `ValueError`, here `None`. Python also accepts
      the decimal digits of other scripts, which `str(n)` never writes. */
  function ParseInt(s: string): Option<int>
  {
    var t := PyStr.Strip(s);
    if |t| > 0 && (t[0] == '-' || t[0] == '+') then
      if DigitRun(t[1..]) then Some(if t[0] == '-' then 0 - DigitsValue(t[1..]) as int else DigitsValue(t[1..]) as int)
      else None
    else if DigitRun(t) then Some(DigitsValue(t))
    else None
  }

  lemma {:induction false} DecimalValue(n: nat)
    ensures DigitsValue(NatToDecimal(n)) == n
  {
    if n >= 10 {
      var s := NatToDecimal(n);
      assert s[..|s| - 1] == NatToDecimal(n / 10);
      DecimalValue(n / 10);
    }
  }

  /** `str(n)` has at least one character and no `.` and no whitespace. */
  lemma IntToStrShape(n: int)
    ensures |IntToStr(n)| >= 1
    ensures forall k :: 0 <= k < |IntToStr(n)| ==> IntToStr(n)[k] == '-' || IsDigit(IntToStr(n)[k])
  {
  }

  /** Digits and the minus sign are not whitespace. */
  lemma SignOrDigitNotSpace(c: char)
    requires c == '-' || IsDigit(c)
    ensures !PyStr.IsSpace(c)
  {
  }

  /** Text from a sign or digit to a digit has no surrounding whitespace. */
  lemma Stripped(t: string)
    requires |t| > 0 && (t[0] == '-' || IsDigit(t[0])) && IsDigit(t[|t| - 1])
    ensures PyStr.Strip(t) == t
  {
    SignOrDigitNotSpace(t[0]);
    SignOrDigitNotSpace(t[|t| - 1]);
    PyStr.StripUnchanged(t);
  }

  /** The decimal digits of a number form a digit run without underscores. */
  lemma DecimalDigitRun(n: nat)
    ensures DigitRun(NatToDecimal(n))
  {
    AllDigitsTail(NatToDecimal(n)[1..]);
  }

  lemma ParseNegative(d: string)
    requires PyStr.Strip("-" + d) == "-" + d && DigitRun(d)
    ensures ParseInt("-" + d) == Some(0 - DigitsValue(d))
  {
    assert ("-" + d)[1..] == d;
  }

  lemma ParseUnsigned(t: string)
    requires PyStr.Strip(t) == t && DigitRun(t) && IsDigit(t[0])
    ensures ParseInt(t) == Some(DigitsValue(t))
  {
  }

  /** A minus sign before a digit run that ends in a digit negates it. */
  lemma ParseMinusDigits(d: string)
    requires DigitRun(d) && IsDigit(d[|d| - 1])
    ensures ParseInt("-" + d) == Some(0 - DigitsValue(d))
  {
    StrippedMinus(d);
    ParseNegative(d);
  }

  lemma StrippedMinus(d: string)
    requires |d| > 0 && IsDigit(d[|d| - 1])
    ensures PyStr.Strip("-" + d) == "-" + d
  {
    var t := "-" + d;
    assert t[|t| - 1] == d[|d| - 1];
    Stripped(t);
  }

  lemma ParseMinusDecimal(m: nat)
    ensures ParseInt("-" + NatToDecimal(m)) == Some(0 - m)
  {
    DecimalDigitRun(m);
    DecimalValue(m);
    ParseMinusDigits(NatToDecimal(m));
  }

  lemma ParseDecimal(m: nat)
    ensures ParseInt(NatToDecimal(m)) == Some(m)
  {
    var d := NatToDecimal(m);
    Stripped(d);
    DecimalDigitRun(m);
    DecimalValue(m);
    ParseUnsigned(d);
  }

  /** `int(str(n)) == n`: the decimal text Python writes for an integer is read
      back as the same integer. */
  lemma ParseIntToStr(n: int)
    ensures ParseInt(IntToStr(n)) == Some(n)
  {
    if n < 0 {
      ParseMinusDecimal(-n);
    } else {
      ParseDecimal(n);
    }
  }
}
