/** Decimal numerals: ASCII digit strings and the natural numbers they denote. */
module Numerals {

  predicate IsDigit(c: char) {
    '0' <= c <= '9'
  }

  predicate AllDigits(s: string) {
    forall i :: 0 <= i < |s| ==> IsDigit(s[i])
  }

  function Pow10(k: nat): (r: nat)
    ensures r >= 1
  {
    if k == 0 then 1 else 10 * Pow10(k - 1)
  }

  function DigitChar(d: nat): (c: char)
    requires d < 10
    ensures IsDigit(c) && c as int - '0' as int == d
  {
    ('0' as int + d) as char
  }

  /** The value of a digit string read most significant digit first (the empty string reads 0). */
  function DigitsValue(s: string): nat
    requires AllDigits(s)
  {
    if s == [] then 0 else DigitsValue(s[..|s| - 1]) * 10 + (s[|s| - 1] as int - '0' as int)
  }

  /** The shortest numeral of `n`: no leading zeros, and "0" for zero. */
  function NatToDigits(n: nat): (r: string)
    ensures AllDigits(r) && |r| >= 1
    ensures DigitsValue(r) == n
    ensures r[0] != '0' || n == 0
    ensures n < 10 <==> |r| == 1
  {
    if n < 10 then [DigitChar(n)]
    else
      var prefix := NatToDigits(n / 10);
      var r := prefix + [DigitChar(n % 10)];
      assert r[..|r| - 1] == prefix;
      r
  }

  /** `n` written with at least `width` digits, padded on the left with zeros (`%02d`, `%04d`). */
  function PadLeft(n: nat, width: nat): (r: string)
    ensures AllDigits(r) && |r| >= width && |r| >= 1
    ensures DigitsValue(r) == n
    ensures n < Pow10(width) ==> |r| == width || (width == 0 && |r| == 1)
  {
    var d := NatToDigits(n);
    if |d| >= width then
      NumeralLength(n, width);
      d
    else
      ZerosPrefix(width - |d|, d);
      Zeros(width - |d|) + d
  }

  function Zeros(k: nat): (r: string)
    ensures |r| == k && AllDigits(r)
    ensures forall i :: 0 <= i < k ==> r[i] == '0'
  {
    if k == 0 then [] else Zeros(k - 1) + ['0']
  }

  /** Zeros in front of a numeral do not change its value. */
  lemma {:induction false} ZerosPrefix(k: nat, d: string)
    requires AllDigits(d)
    ensures AllDigits(Zeros(k) + d) && DigitsValue(Zeros(k) + d) == DigitsValue(d)
  {
    ConcatValue(Zeros(k), d);
    ZerosValue(k);
  }

  lemma {:induction false} ZerosValue(k: nat)
    ensures DigitsValue(Zeros(k)) == 0
  {
    if k > 0 {
      assert Zeros(k)[..k - 1] == Zeros(k - 1);
      ZerosValue(k - 1);
    }
  }

  /** A numeral with no leading zero has at most `width` digits when its value is below 10^width. */
  lemma {:induction false} NumeralLength(n: nat, width: nat)
    ensures n < Pow10(width) ==> |NatToDigits(n)| <= width || (width == 0 && |NatToDigits(n)| == 1)
  {
    if n >= 10 && n < Pow10(width) {
      assert width >= 1;
      assert n / 10 < Pow10(width - 1);
      NumeralLength(n / 10, width - 1);
    }
  }

  /** Reading a concatenation: the left part is shifted by the length of the right part. */
  lemma {:induction false} ConcatValue(a: string, b: string)
    requires AllDigits(a) && AllDigits(b)
    ensures AllDigits(a + b)
    ensures DigitsValue(a + b) == DigitsValue(a) * Pow10(|b|) + DigitsValue(b)
  {
    if b == [] {
      assert a + b == a;
    } else {
      var b' := b[..|b| - 1];
      var last := b[|b| - 1] as int - '0' as int;
      var ab := a + b;
      assert ab[..|ab| - 1] == a + b';
      assert ab[|ab| - 1] == b[|b| - 1];
      assert forall i :: 0 <= i < |ab| ==> IsDigit(ab[i]);
      ConcatValue(a, b');
      ShiftDigit(DigitsValue(a), Pow10(|b'|), DigitsValue(b'), last);
    }
  }

  lemma ShiftDigit(va: int, p: int, vb: int, last: int)
    ensures (va * p + vb) * 10 + last == va * (p * 10) + (vb * 10 + last)
  {
  }

  /** Four digits denote a value below 10000, and the value fixes them. */
  lemma {:induction false} FourDigitsValue(s: string)
    requires AllDigits(s) && |s| == 4
    ensures DigitsValue(s) < 10000
    ensures s == PadLeft(DigitsValue(s), 4)
  {
    var v := DigitsValue(s);
    DigitsBound(s);
    var p := PadLeft(v, 4);
    DigitsInjective(s, p);
  }

  lemma {:induction false} DigitsBound(s: string)
    requires AllDigits(s)
    ensures DigitsValue(s) < Pow10(|s|)
  {
    if s != [] {
      DigitsBound(s[..|s| - 1]);
    }
  }

  /** Two numerals of equal length and equal value are the same string. */
  lemma {:induction false} DigitsInjective(s: string, t: string)
    requires AllDigits(s) && AllDigits(t) && |s| == |t|
    requires DigitsValue(s) == DigitsValue(t)
    ensures s == t
  {
    if s != [] {
      var n := |s|;
      assert s[n - 1] == t[n - 1];
      DigitsInjective(s[..n - 1], t[..n - 1]);
      assert s == s[..n - 1] + [s[n - 1]];
      assert t == t[..n - 1] + [t[n - 1]];
    }
  }

  /** A numeral with no leading zero is the shortest numeral of its value. */
  lemma {:induction false} CanonicalNumeral(s: string)
    requires AllDigits(s) && |s| >= 1 && (s[0] != '0' || |s| == 1)
    ensures NatToDigits(DigitsValue(s)) == s
  {
    var v := DigitsValue(s);
    var d := NatToDigits(v);
    if |s| == 1 {
      assert s[..0] == [] && IsDigit(s[0]);
      assert v == DigitsValue(s[..0]) * 10 + (s[0] as int - '0' as int);
      DigitsInjective(s, d);
    } else {
      LeadingDigitBound(s);
      DigitsBound(s);
      assert v >= 10;
      LengthFromValue(d, s);
      DigitsInjective(s, d);
    }
  }

  lemma {:induction false} LeadingDigitBound(s: string)
    requires AllDigits(s) && |s| >= 1 && s[0] != '0'
    ensures DigitsValue(s) >= Pow10(|s| - 1)
  {
    if |s| > 1 {
      var s' := s[..|s| - 1];
      assert s'[0] == s[0];
      LeadingDigitBound(s');
    }
  }

  /** Two numerals without leading zeros that have the same value have the same length. */
  lemma {:induction false} LengthFromValue(d: string, s: string)
    requires AllDigits(d) && |d| >= 1 && (d[0] != '0' || |d| == 1)
    requires AllDigits(s) && |s| >= 1 && (s[0] != '0' || |s| == 1)
    requires DigitsValue(d) == DigitsValue(s)
    ensures |d| == |s|
  {
    if |d| < |s| {
      Bounds(d, s);
    } else if |s| < |d| {
      Bounds(s, d);
    }
  }

  lemma {:induction false} Bounds(short: string, long: string)
    requires AllDigits(short) && |short| >= 1
    requires AllDigits(long) && |long| > |short| && long[0] != '0'
    ensures DigitsValue(short) < DigitsValue(long)
  {
    DigitsBound(short);
    LeadingDigitBound(long);
    Pow10Monotone(|short|, |long| - 1);
  }

  lemma {:induction false} Pow10Monotone(i: nat, j: nat)
    requires i <= j
    ensures Pow10(i) <= Pow10(j)
  {
    if i < j {
      Pow10Monotone(i, j - 1);
    }
  }
}
