/** Java's decimal conversions of `int` and `long` as the header parsers use
    them: `String.valueOf(n)` one way, `Integer.parseInt` / `Long.parseLong`
    the other, restricted to ASCII digits. */
module Decimal {
  import opened Outcomes

  predicate IsDigit(c: char) {
    '0' <= c <= '9'
  }

  predicate AllDigits(s: string) {
    forall i :: 0 <= i < |s| ==> IsDigit(s[i])
  }

  function DigitValue(c: char): (d: nat)
    requires IsDigit(c)
    ensures d < 10
  {
    (c as int) - ('0' as int)
  }

  function DigitChar(d: nat): (c: char)
    requires d < 10
    ensures IsDigit(c) && DigitValue(c) == d
  {
    (('0' as int) + d) as char
  }

  /** The digits of `n`, most significant first, without leading zeros. */
  function NatToDigits(n: nat): (s: string)
    ensures s != [] && AllDigits(s)
    ensures |s| > 1 ==> s[0] != '0'
  {
    if n < 10 then [DigitChar(n)] else NatToDigits(n / 10) + [DigitChar(n % 10)]
  }

  /** The value of a string of decimal digits, read most significant first. */
  function DigitsToNat(s: string): nat
    requires AllDigits(s)
  {
    if s == [] then 0 else DigitsToNat(s[..|s| - 1]) * 10 + DigitValue(s[|s| - 1])
  }

  /** The strings `Integer.parseInt` and `Long.parseLong` accept as numerals:
      one or more ASCII digits, optionally after a single '-' or '+'. */
  predicate IsSignedDigits(t: string) {
    (t != [] && AllDigits(t))
    || (|t| >= 2 && (t[0] == '-' || t[0] == '+') && AllDigits(t[1..]))
  }

  /** The value such a numeral denotes (leading zeros and "-0" allowed). */
  function SignedValue(t: string): int
    requires IsSignedDigits(t)
  {
    if t[0] == '-' then 0 - DigitsToNat(t[1..])
    else if t[0] == '+' then DigitsToNat(t[1..])
    else DigitsToNat(t)
  }

  /** `String.valueOf(n)` for a Java `int` or `long` `n`. */
  function ToDecimal(n: int): (r: string)
    ensures IsSignedDigits(r) && SignedValue(r) == n
    ensures r[0] == '-' <==> n < 0
  {
    if n < 0 then
      var d := NatToDigits(-n);
      DigitsRoundTrip(-n);
      assert ("-" + d)[1..] == d;
      "-" + d
    else
      DigitsRoundTrip(n);
      NatToDigits(n)
  }

  /** `Integer.parseInt(s)` (with `lo`, `hi` the `int` bounds) or
      `Long.parseLong(s)` (the `long` bounds): null, the empty string, a lone
      sign, a non-digit or a value outside `[lo, hi]` throw
      NumberFormatException. */
  function ParseDecimal(s: Option<string>, lo: int, hi: int): (r: Outcome<int>)
    ensures r.Ok? ==> lo <= r.value <= hi
    ensures r.Fail? ==> r.failure == NumberFormat
    ensures r.Ok? <==> s.Some? && IsSignedDigits(s.value) && lo <= SignedValue(s.value) <= hi
    ensures r.Ok? ==> r.value == SignedValue(s.value)
  {
    if s.None? then Fail(NumberFormat)
    else
      var t := s.value;
      var signed := |t| > 0 && (t[0] == '-' || t[0] == '+');
      var digits := if signed then t[1..] else t;
      if digits == [] || !AllDigits(digits) then Fail(NumberFormat)
      else
        var magnitude: int := DigitsToNat(digits);
        var v: int := if signed && t[0] == '-' then -magnitude else magnitude;
        if lo <= v <= hi then Ok(v) else Fail(NumberFormat)
  }

  /** Reading back the digits of `n` gives `n`. */
  lemma {:induction false} DigitsRoundTrip(n: nat)
    ensures DigitsToNat(NatToDigits(n)) == n
  {
    if n >= 10 {
      var s := NatToDigits(n);
      assert s[..|s| - 1] == NatToDigits(n / 10);
      DigitsRoundTrip(n / 10);
    }
  }

  /** Parsing what `String.valueOf` printed gives the number back exactly
      when it fits the target type, and NumberFormatException otherwise. */
  lemma ParseToDecimal(n: int, lo: int, hi: int)
    ensures ParseDecimal(Some(ToDecimal(n)), lo, hi)
         == if lo <= n <= hi then Ok(n) else Fail(NumberFormat)
  {
    var t := ToDecimal(n);
    if n < 0 {
      assert t[0] == '-';
      assert t[1..] == NatToDigits(-n);
      DigitsRoundTrip(-n);
      assert DigitsToNat(t[1..]) == -n;
    } else {
      assert IsDigit(t[0]);
      DigitsRoundTrip(n);
      assert DigitsToNat(t) == n;
    }
  }

  /** The edge cases of `Integer.parseInt`: a '+' sign, leading zeros and
      "-0" are accepted; letters, a lone sign, a trailing non-digit and the
      empty string are not. */
  lemma ParseEdgeCases()
    ensures ParseDecimal(Some("+5"), INT_MIN, INT_MAX) == Ok(5)
    ensures ParseDecimal(Some("007"), INT_MIN, INT_MAX) == Ok(7)
    ensures ParseDecimal(Some("-0"), INT_MIN, INT_MAX) == Ok(0)
    ensures ParseDecimal(Some("abc"), INT_MIN, INT_MAX) == Fail(NumberFormat)
    ensures ParseDecimal(Some("-"), INT_MIN, INT_MAX) == Fail(NumberFormat)
    ensures ParseDecimal(Some("1x"), INT_MIN, INT_MAX) == Fail(NumberFormat)
    ensures ParseDecimal(Some(""), INT_MIN, INT_MAX) == Fail(NumberFormat)
  {
    assert "+5"[1..] == "5";
    assert "007"[..2] == "00" && "00"[..1] == "0";
    assert "-0"[1..] == "0";
    assert !IsDigit("abc"[0]);
    assert !IsDigit("1x"[1]);
  }

  /** `String.valueOf` is injective, so distinct numbers print differently. */
  lemma ToDecimalInjective(m: int, n: int)
    requires ToDecimal(m) == ToDecimal(n)
    ensures m == n
  {
    ParseToDecimal(m, m, m);
    ParseToDecimal(n, m, m);
  }
}
