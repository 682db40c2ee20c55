/**
 * The number grammar the conversion code reads and writes: double.TryParse and
 * int.Parse restricted to plain decimal literals (white space, an optional sign,
 * digits and at most one decimal point), the decimal rendering of an int that
 * string.Format produces, and Math.Round with MidpointRounding.AwayFromZero.
 */
module Numbers {
  import opened Values
  import opened Strings

  const Int32Min: int := -0x8000_0000
  const Int32Max: int := 0x7FFF_FFFF

  predicate IsDigit(c: char) {
    '0' <= c <= '9'
  }

  predicate AllDigits(s: string) {
    forall k :: 0 <= k < |s| ==> IsDigit(s[k])
  }

  function DigitValue(c: char): nat
    requires IsDigit(c)
  {
    c as int - '0' as int
  }

  function DigitChar(d: nat): (c: char)
    requires d < 10
    ensures IsDigit(c) && DigitValue(c) == d
  {
    ('0' as int + d) as char
  }

  /** The value of a string of decimal digits, most significant digit first. */
  function DigitsValue(s: string): nat
    requires AllDigits(s)
    decreases |s|
  {
    if s == [] then 0 else 10 * DigitsValue(s[..|s| - 1]) + DigitValue(s[|s| - 1])
  }

  /** The value of the digits written after a decimal point. */
  function {:induction false} FractionValue(s: string): (r: real)
    requires AllDigits(s)
    ensures 0.0 <= r < 1.0
    decreases |s|
  {
    if s == [] then 0.0 else (DigitValue(s[0]) as real + FractionValue(s[1..])) / 10.0
  }

  /** string.Format("{0}", n) for n >= 0: the decimal digits of n without leading zeros. */
  function NatToString(n: nat): (s: string)
    ensures |s| > 0 && AllDigits(s)
    ensures DigitsValue(s) == n
    ensures s[0] == '0' ==> n == 0
    decreases n
  {
    if n < 10 then [DigitChar(n)]
    else
      var prefix := NatToString(n / 10);
      var s := prefix + [DigitChar(n % 10)];
      assert s[..|s| - 1] == prefix;
      s
  }

  /** string.Format("{0}", n): a minus sign for negative values, then the digits. */
  function IntToString(n: int): string {
    if n < 0 then "-" + NatToString(-n) else NatToString(n)
  }

  /** The white space that the number parsers skip around a literal: U+0009-U+000D and U+0020. */
  predicate IsNumberWhite(c: char) {
    c == ' ' || '\t' <= c <= '\r'
  }

  /** A leading '-' or '+' and the rest of the literal. */
  function SplitSign(t: string): (bool, string) {
    if t != [] && (t[0] == '-' || t[0] == '+') then (t[0] == '-', t[1..]) else (false, t)
  }

  function StripNumberWhite(s: string): string {
    TrimEnd(TrimStart(s, IsNumberWhite), IsNumberWhite)
  }

  /**
   * double.TryParse on a plain decimal literal: optional white space, an optional
   * sign, digits with at most one decimal point and at least one digit, optional
   * white space. None when the literal is malformed.
   */
  function ParseDecimal(s: string): Option<real> {
    ParseLiteral(StripNumberWhite(s))
  }

  /** The signed decimal literal left once the surrounding white space is stripped. */
  function ParseLiteral(t: string): Option<real> {
    var (negative, body) := SplitSign(t);
    var point := IndexOf(body, '.');
    var whole := if point < 0 then body else body[..point];
    var fraction := if point < 0 then [] else body[point + 1..];
    if AllDigits(whole) && AllDigits(fraction) && |whole| + |fraction| > 0 then
      var magnitude := DigitsValue(whole) as real + FractionValue(fraction);
      Some(if negative then -magnitude else magnitude)
    else None
  }

  /**
   * int.Parse: optional white space, an optional sign, one or more digits, optional
   * white space; FormatException when malformed, OverflowException outside 32 bits.
   */
  function ParseInt32(s: string): (r: Result<int>)
    ensures r.Success? ==> Int32Min <= r.value <= Int32Max
    ensures r.Failure? ==> r.error == FormatException || r.error == OverflowException
  {
    ParseInteger(StripNumberWhite(s))
  }

  /** The signed integer literal left once the surrounding white space is stripped. */
  function ParseInteger(t: string): (r: Result<int>)
    ensures r.Success? ==> Int32Min <= r.value <= Int32Max
    ensures r.Failure? ==> r.error == FormatException || r.error == OverflowException
  {
    var (negative, digits) := SplitSign(t);
    if digits == [] || !AllDigits(digits) then Failure(FormatException)
    else
      var v := if negative then -(DigitsValue(digits) as int) else DigitsValue(digits);
      if Int32Min <= v <= Int32Max then Success(v) else Failure(OverflowException)
  }

  /** Math.Round(x, MidpointRounding.AwayFromZero): the nearest integer, halves away from zero. */
  function RoundHalfAwayFromZero(x: real): (n: int)
    ensures -0.5 <= n as real - x <= 0.5
    ensures n as real - x == 0.5 ==> x > 0.0
    ensures n as real - x == -0.5 ==> x < 0.0
  {
    if x >= 0.0 then (x + 0.5).Floor else -((-x + 0.5).Floor)
  }

  /** White space in front of a literal is skipped. */
  lemma StripLeadingWhite(w: string, t: string)
    requires forall k :: 0 <= k < |w| ==> IsNumberWhite(w[k])
    requires t != [] && !IsNumberWhite(t[0]) && !IsNumberWhite(t[|t| - 1])
    ensures StripNumberWhite(w + t) == t
  {
    TrimStartSkips(w, t, IsNumberWhite);
    TrimStartKeeps(t, IsNumberWhite);
    TrimEndKeeps(t, IsNumberWhite);
  }

  /** The decimal rendering of an integer reads back as that integer. */
  lemma ParseDecimalOfInt(w: string, n: int)
    requires forall k :: 0 <= k < |w| ==> IsNumberWhite(w[k])
    ensures ParseDecimal(w + IntToString(n)) == Some(n as real)
  {
    StripLeadingWhite(w, IntToString(n));
    LiteralOfInt(n);
  }

  /** The decimal rendering of an integer is a literal with that value. */
  lemma LiteralOfInt(n: int)
    ensures ParseLiteral(IntToString(n)) == Some(n as real)
  {
    var t := IntToString(n);
    var digits := NatToString(if n < 0 then -n else n);
    assert SplitSign(t) == (n < 0, digits);
    assert IndexOf(digits, '.') == -1 by {
      assert !IsDigit('.');
    }
    assert FractionValue([]) == 0.0;
  }

  /** The decimal rendering of a 32-bit integer reads back as that integer. */
  lemma ParseInt32OfInt(w: string, n: int)
    requires forall k :: 0 <= k < |w| ==> IsNumberWhite(w[k])
    requires Int32Min <= n <= Int32Max
    ensures ParseInt32(w + IntToString(n)) == Success(n)
  {
    StripLeadingWhite(w, IntToString(n));
    IntegerOfInt(n);
  }

  /** The decimal rendering of a 32-bit integer is an integer literal with that value. */
  lemma IntegerOfInt(n: int)
    requires Int32Min <= n <= Int32Max
    ensures ParseInteger(IntToString(n)) == Success(n)
  {
    var t := IntToString(n);
    if n < 0 {
      var digits := NatToString(-n);
      assert t == "-" + digits;
      assert SplitSign(t) == (true, digits);
    } else {
      var digits := NatToString(n);
      assert SplitSign(t) == (false, digits);
    }
  }
}
