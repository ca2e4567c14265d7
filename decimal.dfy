/**
 * Decimal text as the scripts read and write it: Python's `str(n)` on an
 * integer, `int(text)` and `float(text)` on ASCII decimal text.
 */
module Decimal {
  import opened Wrappers

  predicate IsDigit(c: char) {
    '0' <= c <= '9'
  }

  predicate AllDigits(s: string) {
    forall i | 0 <= i < |s| :: IsDigit(s[i])
  }

  function DigitValue(c: char): (d: nat)
    requires IsDigit(c)
    ensures d < 10
  {
    c as int - '0' as int
  }

  function DigitChar(d: nat): (c: char)
    requires d < 10
    ensures IsDigit(c) && DigitValue(c) == d
  {
    ('0' as int + d) as char
  }

  /** The number a string of digits denotes, most significant digit first. */
  function DigitsValue(s: string): nat
    requires AllDigits(s)
  {
    if s == [] then 0 else DigitsValue(s[..|s| - 1]) * 10 + DigitValue(s[|s| - 1])
  }

  function Pow10(n: nat): (p: nat)
    ensures p >= 1
  {
    if n == 0 then 1 else 10 * Pow10(n - 1)
  }

  /** The value of the fixed-point text `whole.frac`, computed exactly. */
  function FixedPoint(whole: string, frac: string): (v: real)
    requires AllDigits(whole) && AllDigits(frac)
    ensures v >= DigitsValue(whole) as real
  {
    DigitsValue(whole) as real + DigitsValue(frac) as real / Pow10(|frac|) as real
  }

  /** Python's `str(n)` for a natural number: digits without leading zeros. */
  function NatText(n: nat): (r: string)
    ensures |r| > 0 && AllDigits(r)
    ensures r[0] == '0' ==> n == 0
    decreases n
  {
    if n < 10 then [DigitChar(n)] else NatText(n / 10) + [DigitChar(n % 10)]
  }

  /** Python's `str(i)` for an integer. */
  function IntText(i: int): string {
    if i < 0 then "-" + NatText(-i) else NatText(i)
  }

  /** Python's `int(text)`: an optional sign followed by one or more digits; `None` is a `ValueError`. */
  function ParseInt(s: string): Option<int> {
    if |s| > 0 && (s[0] == '-' || s[0] == '+') then
      var body := s[1..];
      if |body| > 0 && AllDigits(body) then
        var v: int := DigitsValue(body);
        Some(if s[0] == '-' then -v else v)
      else None
    else if |s| > 0 && AllDigits(s) then Some(DigitsValue(s))
    else None
  }

  /** The index of the first '.' in s, or |s| when there is none. */
  function PointIndex(s: string): (k: nat)
    ensures k <= |s|
    ensures '.' !in s[..k]
    ensures k < |s| ==> s[k] == '.'
  {
    if s == [] then 0
    else if s[0] == '.' then 0
    else
      var k := PointIndex(s[1..]);
      assert s[..k + 1] == [s[0]] + s[1..][..k];
      k + 1
  }

  /** The value of an unsigned decimal: digits, optionally a point and more digits, at least one digit in all. */
  function UnsignedDecimal(s: string): Option<real> {
    var k := PointIndex(s);
    var whole := s[..k];
    var frac := if k < |s| then s[k + 1..] else [];
    if AllDigits(whole) && AllDigits(frac) && |whole| + |frac| > 0 then
      Some(FixedPoint(whole, frac))
    else None
  }

  /**
   * Python's `float(text)` on a plain decimal: an optional sign, then
   * `digits`, `digits.`, `.digits` or `digits.digits`.
   */
  function ParseDecimal(s: string): Option<real> {
    if |s| > 0 && (s[0] == '-' || s[0] == '+') then
      match UnsignedDecimal(s[1..])
      case None => None
      case Some(v) => Some(if s[0] == '-' then -v else v)
    else UnsignedDecimal(s)
  }

  lemma {:induction false} DigitsValueAppend(s: string, c: char)
    requires AllDigits(s) && IsDigit(c)
    ensures AllDigits(s + [c])
    ensures DigitsValue(s + [c]) == DigitsValue(s) * 10 + DigitValue(c)
  {
    assert (s + [c])[..|s + [c]| - 1] == s;
  }

  /** Reading back what `str(n)` wrote gives n. */
  lemma {:induction false} NatTextValue(n: nat)
    ensures DigitsValue(NatText(n)) == n
    decreases n
  {
    if n >= 10 {
      NatTextValue(n / 10);
      DigitsValueAppend(NatText(n / 10), DigitChar(n % 10));
    }
  }

  /** `int(str(i)) == i` for every integer. */
  lemma ParseIntText(i: int)
    ensures ParseInt(IntText(i)) == Some(i)
  {
    if i < 0 {
      var t := NatText(-i);
      NatTextValue(-i);
      assert IntText(i) == "-" + t;
      assert ("-" + t)[1..] == t;
    } else {
      var t := NatText(i);
      NatTextValue(i);
      assert IntText(i) == t;
      assert IsDigit(t[0]);
    }
  }

  /** `float(str(n)) == n` for every integer: text without a point reads as a whole number. */
  lemma ParseDecimalIntText(i: int)
    ensures ParseDecimal(IntText(i)) == Some(i as real)
  {
    if i < 0 {
      assert IntText(i)[1..] == NatText(-i);
      UnsignedNatText(-i);
    } else {
      UnsignedNatText(i);
    }
  }

  lemma UnsignedNatText(n: nat)
    ensures UnsignedDecimal(NatText(n)) == Some(n as real)
  {
    var t := NatText(n);
    NatTextValue(n);
    assert '.' !in t by {
      forall k | 0 <= k < |t| ensures t[k] != '.' { assert IsDigit(t[k]); }
    }
    PointAbsent(t);
    assert t[..|t|] == t;
  }

  lemma PointAbsent(s: string)
    requires '.' !in s
    ensures PointIndex(s) == |s|
  {
  }

  /** `float("w.f")` is the exact fixed-point value of its digits. */
  lemma ParseFixedPoint(whole: string, frac: string)
    requires AllDigits(whole) && AllDigits(frac) && |whole| > 0
    ensures ParseDecimal(whole + "." + frac) == Some(FixedPoint(whole, frac))
  {
    var s := whole + "." + frac;
    assert '.' !in whole by {
      forall k | 0 <= k < |whole| ensures whole[k] != '.' { assert IsDigit(whole[k]); }
    }
    var k := PointIndex(s);
    assert s[..|whole|] == whole && s[|whole|] == '.';
    assert k == |whole|;
    assert s[..k] == whole && s[k + 1..] == frac;
    assert !IsDigit(s[0]) ==> false by { assert s[0] == whole[0]; }
  }
}
