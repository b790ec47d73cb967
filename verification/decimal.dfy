/**
 * The part of Python's `float()` the price strings reach: unsigned decimal
 * literals of the form D+('.'D+)?, read as exact reals.
 */
module Decimal {
  import opened Wrappers
  import opened PyStr

  predicate AllDigits(s: string) {
    forall i :: 0 <= i < |s| ==> IsDigit(s[i])
  }

  function DigitValue(c: char): (d: nat)
    requires IsDigit(c)
    ensures d < 10
  {
    c as int - '0' as int
  }

  function DigitChar(d: nat): (c: char)
    requires d < 10
    ensures IsDigit(c) && DigitValue(c) == d
  {
    ('0' as int + d) as char
  }

  function Pow10(k: nat): (p: nat)
    ensures p >= 1
  {
    if k == 0 then 1 else 10 * Pow10(k - 1)
  }

  /** The number a string of decimal digits denotes, most significant digit first.
      A string of `k` digits denotes less than `10^k`. */
  function Value(s: string): (v: nat)
    requires AllDigits(s)
    ensures v < Pow10(|s|)
    decreases |s|
  {
    if |s| == 0 then 0 else 10 * Value(s[..|s| - 1]) + DigitValue(s[|s| - 1])
  }

  /** The shortest decimal representation of `n`. */
  function NatToDigits(n: nat): (ds: string)
    ensures |ds| > 0 && AllDigits(ds)
    decreases n
  {
    if n < 10 then [DigitChar(n)] else NatToDigits(n / 10) + [DigitChar(n % 10)]
  }

  lemma {:induction false} ValueOfNatToDigits(n: nat)
    ensures Value(NatToDigits(n)) == n
    decreases n
  {
    if n >= 10 {
      var ds := NatToDigits(n);
      assert ds[..|ds| - 1] == NatToDigits(n / 10);
      ValueOfNatToDigits(n / 10);
    }
  }

  /** Position of the first `c` in `s`, or `|s|` when there is none. */
  function FirstIndex(s: string, c: char): (i: nat)
    ensures i <= |s|
    ensures i < |s| ==> s[i] == c
    ensures forall j :: 0 <= j < i ==> s[j] != c
  {
    if |s| == 0 then 0
    else if s[0] == c then 0
    else 1 + FirstIndex(s[1..], c)
  }

  /** The real number written `whole.frac`. */
  function FixedPoint(whole: string, frac: string): (x: real)
    requires AllDigits(whole) && AllDigits(frac)
    ensures Value(whole) as real <= x < Value(whole) as real + 1.0
  {
    var f, p := Value(frac) as real, Pow10(|frac|) as real;
    QuotientBelowOne(f, p);
    Value(whole) as real + f / p
  }

  lemma QuotientBelowOne(a: real, b: real)
    requires 0.0 <= a < b
    ensures 0.0 <= a / b < 1.0
  {
  }

  /** The literals the parser accepts: D+ or D+ '.' D+. */
  predicate IsDecimalLiteral(s: string) {
    || (|s| > 0 && AllDigits(s))
    || exists i :: 0 < i < |s| - 1 && s[i] == '.' && AllDigits(s[..i]) && AllDigits(s[i + 1..])
  }

  /** `float(s)` restricted to unsigned decimal literals; anything else is a parse error. */
  function ParseDecimal(s: string): (r: Option<real>)
    ensures r.Some? ==> r.value >= 0.0
  {
    var i := FirstIndex(s, '.');
    if i == |s| then
      if |s| > 0 && AllDigits(s) then Some(Value(s) as real) else None
    else
      var whole, frac := s[..i], s[i + 1..];
      if |whole| > 0 && |frac| > 0 && AllDigits(whole) && AllDigits(frac) then
        Some(FixedPoint(whole, frac))
      else
        None
  }

  /** The parser succeeds on exactly the decimal literals. */
  lemma ParseDecimalAccepts(s: string)
    ensures ParseDecimal(s).Some? <==> IsDecimalLiteral(s)
  {
  }

  /** A digit string reads as its value. */
  lemma ParseWhole(whole: string)
    requires |whole| > 0 && AllDigits(whole)
    ensures ParseDecimal(whole) == Some(Value(whole) as real)
  {
  }

  /** A digit string, a point and a digit string read as whole part plus scaled fraction. */
  lemma ParseWithFraction(whole: string, frac: string)
    requires |whole| > 0 && AllDigits(whole)
    requires |frac| > 0 && AllDigits(frac)
    ensures ParseDecimal(whole + "." + frac) == Some(FixedPoint(whole, frac))
  {
    var s := whole + "." + frac;
    assert s[..|whole|] == whole;
    assert s[|whole| + 1..] == frac;
    assert s[|whole|] == '.';
    var i := FirstIndex(s, '.');
    assert i == |whole|;
    assert s[..i] == whole && s[i + 1..] == frac;
  }

  lemma AllDigitsHasNoDot(s: string)
    requires AllDigits(s)
    ensures Count(s, '.') == 0
  {
  }

  /** Every accepted literal has at most one point, so two or more points are a parse error. */
  lemma ParseAtMostOneDot(s: string)
    requires ParseDecimal(s).Some?
    ensures Count(s, '.') <= 1
  {
  }
}
