/** Decimal rendering and reading of natural numbers, as used by the date format tokens `D` and `YYYY`. */
module Decimal {

  predicate IsDigit(c: char) {
    '0' <= c <= '9'
  }

  predicate AllDigits(s: string) {
    forall i :: 0 <= i < |s| ==> IsDigit(s[i])
  }

  function DigitChar(d: nat): (c: char)
    requires d < 10
    ensures IsDigit(c)
  {
    ('0' as int + d) as char
  }

  function DigitValue(c: char): (d: nat)
    requires IsDigit(c)
    ensures d < 10 && DigitChar(d) == c
  {
    c as int - '0' as int
  }

  /** The number that a string of decimal digits denotes (most significant digit first). */
  function Value(s: string): nat
    requires AllDigits(s)
  {
    if s == [] then 0 else Value(s[..|s| - 1]) * 10 + DigitValue(s[|s| - 1])
  }

  /** The shortest decimal rendering of `n`: at least one digit, and no leading zero. */
  function NatToString(n: nat): (s: string)
    ensures |s| >= 1 && AllDigits(s)
    ensures |s| > 1 ==> s[0] != '0'
    ensures Value(s) == n
  {
    if n < 10 then [DigitChar(n)]
    else
      var s := NatToString(n / 10) + [DigitChar(n % 10)];
      assert s[..|s| - 1] == NatToString(n / 10);
      s
  }

  /** Left-pads `s` with `'0'` up to `width` characters (moment's `zeroFill` for a non-negative number). */
  function ZeroPad(s: string, width: nat): (r: string)
    ensures |r| == if |s| < width then width else |s|
    ensures r[|r| - |s|..] == s
    ensures forall i :: 0 <= i < |r| - |s| ==> r[i] == '0'
  {
    if |s| < width then
      var zeros := seq(width - |s|, _ => '0');
      assert (zeros + s)[|zeros|..] == s;
      zeros + s
    else s
  }

  /**
   * `t` has the shape of a number zero-filled to `width` digits: at least `width` digits, and
   * no leading zero beyond those the fill needs. For `width == 1` this is a plain decimal numeral.
   */
  predicate PaddedDigits(t: string, width: nat) {
    |t| >= width && AllDigits(t) && (|t| > width ==> t[0] != '0')
  }

  /** Leading zeros do not change the value a digit string denotes. */
  lemma {:induction false} LeadingZerosValue(z: string, s: string)
    requires forall i :: 0 <= i < |z| ==> z[i] == '0'
    requires AllDigits(s)
    ensures AllDigits(z + s) && Value(z + s) == Value(s)
    decreases |s|
  {
    if s == [] {
      assert z + s == z;
      ZerosValue(z);
    } else {
      var t := s[..|s| - 1];
      assert (z + s)[..|z + s| - 1] == z + t;
      LeadingZerosValue(z, t);
    }
  }

  lemma {:induction false} ZerosValue(z: string)
    requires forall i :: 0 <= i < |z| ==> z[i] == '0'
    ensures AllDigits(z) && Value(z) == 0
    decreases |z|
  {
    if z != [] {
      ZerosValue(z[..|z| - 1]);
    }
  }

  /** A zero-padded rendering still denotes the number it renders. */
  lemma PaddedValue(n: nat, width: nat)
    ensures AllDigits(ZeroPad(NatToString(n), width))
    ensures Value(ZeroPad(NatToString(n), width)) == n
  {
    var s := NatToString(n);
    var r := ZeroPad(s, width);
    var z := r[..|r| - |s|];
    assert r == z + s;
    LeadingZerosValue(z, s);
  }

  /** A numeral whose first digit is not '0' denotes a positive number. */
  lemma {:induction false} PositiveValue(t: string)
    requires |t| >= 1 && AllDigits(t) && t[0] != '0'
    ensures Value(t) >= 1
    decreases |t|
  {
    if |t| > 1 {
      PositiveValue(t[..|t| - 1]);
    }
  }

  /** A numeral without a leading zero is the shortest rendering of the number it denotes. */
  lemma {:induction false} NumeralRoundTrip(t: string)
    requires PaddedDigits(t, 1)
    ensures NatToString(Value(t)) == t
    decreases |t|
  {
    if |t| > 1 {
      var p, last := t[..|t| - 1], t[|t| - 1];
      assert p[0] == t[0];
      PositiveValue(p);
      NumeralRoundTrip(p);
      var n := Value(t);
      LastDigit(Value(p), DigitValue(last));
      assert n >= 10 && n / 10 == Value(p) && n % 10 == DigitValue(last);
      assert NatToString(n) == NatToString(n / 10) + [DigitChar(n % 10)];
      assert t == p + [last];
    }
  }

  /** Appending digit `d` to a number `q` gives a number whose quotient by ten is `q` and remainder is `d`. */
  lemma LastDigit(q: nat, d: nat)
    requires d < 10
    ensures (q * 10 + d) / 10 == q && (q * 10 + d) % 10 == d
  {
  }

  /** The number of zeros in front of the significant digits of `t`; the last digit always counts as significant. */
  function LeadingZeros(t: string): (k: nat)
    requires |t| >= 1
    ensures k < |t|
    ensures forall i :: 0 <= i < k ==> t[i] == '0'
    ensures k < |t| - 1 ==> t[k] != '0'
  {
    if |t| == 1 || t[0] != '0' then 0
    else
      var k := LeadingZeros(t[1..]);
      assert forall i :: 1 <= i < k + 1 ==> t[i] == t[1..][i - 1];
      k + 1
  }

  /** A zero-filled numeral is exactly the zero-filled rendering of the number it denotes. */
  lemma PaddedRoundTrip(t: string, width: nat)
    requires width >= 1 && PaddedDigits(t, width)
    ensures ZeroPad(NatToString(Value(t)), width) == t
  {
    if |t| > width {
      NumeralRoundTrip(t);
    } else {
      var k := LeadingZeros(t);
      var z, u := t[..k], t[k..];
      assert t == z + u;
      assert |u| > 1 ==> u[0] == t[k];
      NumeralRoundTrip(u);
      LeadingZerosValue(z, u);
      ZeroPadRefill(z, u, width);
    }
  }

  /** Zero-filling the significant digits `u` back to the full width restores the zeros `z`. */
  lemma ZeroPadRefill(z: string, u: string, width: nat)
    requires forall i :: 0 <= i < |z| ==> z[i] == '0'
    requires |z| + |u| == width
    ensures ZeroPad(u, width) == z + u
  {
    var r := ZeroPad(u, width);
    forall i | 0 <= i < width
      ensures r[i] == (z + u)[i]
    {
      if i >= |z| {
        assert r[i] == r[|r| - |u|..][i - |z|];
      }
    }
  }
}
