// Decimal digit strings: the value a digit string denotes and the
// zero-padded rendering of a natural number, as used by the time and date
// parsers and formatters.

module Decimal {

  predicate IsDigit(c: char) {
    '0' <= c <= '9'
  }

  predicate AllDigits(s: string) {
    forall i :: 0 <= i < |s| ==> IsDigit(s[i])
  }

  function DigitValue(c: char): (v: nat)
    requires IsDigit(c)
    ensures v < 10
  {
    c as int - '0' as int
  }

  function DigitChar(v: nat): (c: char)
    requires v < 10
    ensures IsDigit(c) && DigitValue(c) == v
  {
    ('0' as int + v) as char
  }

  function Pow10(n: nat): (p: nat)
    ensures p >= 1
  {
    if n == 0 then 1 else 10 * Pow10(n - 1)
  }

  /** The number a string of decimal digits denotes, most significant digit first. */
  function Value(s: string): (v: nat)
    requires AllDigits(s)
    decreases |s|
  {
    if s == [] then 0 else Value(s[..|s| - 1]) * 10 + DigitValue(s[|s| - 1])
  }

  /** A digit string of length n denotes a number below 10^n. */
  lemma {:induction false} ValueBound(s: string)
    requires AllDigits(s)
    ensures Value(s) < Pow10(|s|)
    decreases |s|
  {
    if s != [] {
      ValueBound(s[..|s| - 1]);
    }
  }

  /** Value reads a concatenation as the prefix shifted left by the suffix's length. */
  lemma {:induction false} ValueAppend(a: string, b: string)
    requires AllDigits(a) && AllDigits(b)
    ensures AllDigits(a + b)
    ensures Value(a + b) == Value(a) * Pow10(|b|) + Value(b)
    decreases |b|
  {
    if b != [] {
      var b', d := b[..|b| - 1], DigitValue(b[|b| - 1]);
      assert (a + b)[..|a + b| - 1] == a + b';
      assert (a + b)[|a + b| - 1] == b[|b| - 1];
      ValueAppend(a, b');
      var va, vb', p' := Value(a), Value(b'), Pow10(|b'|);
      assert Value(b) == vb' * 10 + d;
      assert Pow10(|b|) == p' * 10;
      assert Value(a + b) == (va * p' + vb') * 10 + d;
      ShiftDigit(va, p', vb', d);
    } else {
      assert a + b == a;
    }
  }

  lemma ShiftDigit(va: int, p: int, vb: int, d: int)
    ensures (va * p + vb) * 10 + d == va * (p * 10) + (vb * 10 + d)
  {
  }

  /** Two digit strings of the same length that denote the same number are equal. */
  lemma {:induction false} ValueInjective(a: string, b: string)
    requires AllDigits(a) && AllDigits(b) && |a| == |b|
    requires Value(a) == Value(b)
    ensures a == b
    decreases |a|
  {
    if a != [] {
      var n := |a| - 1;
      var da, db := DigitValue(a[n]), DigitValue(b[n]);
      var pa, pb := Value(a[..n]), Value(b[..n]);
      assert pa * 10 + da == pb * 10 + db;
      DivMod10(pa, da);
      DivMod10(pb, db);
      ValueInjective(a[..n], b[..n]);
      assert a[n] == b[n];
      assert a == a[..n] + [a[n]] && b == b[..n] + [b[n]];
    }
  }

  lemma DivMod10(p: nat, d: nat)
    requires d < 10
    ensures (p * 10 + d) / 10 == p && (p * 10 + d) % 10 == d
  {
  }

  /** The shortest decimal rendering of n. */
  function Digits(n: nat): (s: string)
    ensures AllDigits(s) && |s| >= 1
    decreases n
  {
    if n < 10 then [DigitChar(n)] else Digits(n / 10) + [DigitChar(n % 10)]
  }

  /** Reading back the rendering of n gives n, and it fits in w digits when n < 10^w. */
  lemma {:induction false} DigitsValue(n: nat, w: nat)
    ensures Value(Digits(n)) == n
    ensures 1 <= w && n < Pow10(w) ==> |Digits(n)| <= w
    decreases n
  {
    var s := Digits(n);
    if n < 10 {
      assert s[..|s| - 1] == [];
    } else {
      var p := Digits(n / 10);
      assert s[..|s| - 1] == p;
      DigitsValue(n / 10, if w == 0 then 0 else w - 1);
      if 1 <= w && n < Pow10(w) {
        assert Pow10(w) == 10 * Pow10(w - 1);
        assert w >= 2;
      }
    }
  }

  function Zeros(k: nat): (s: string)
    ensures |s| == k && AllDigits(s)
    ensures forall i :: 0 <= i < k ==> s[i] == '0'
  {
    seq(k, _ => '0')
  }

  lemma {:induction false} ValueZeros(k: nat)
    ensures Value(Zeros(k)) == 0
    decreases k
  {
    if k > 0 {
      assert Zeros(k)[..k - 1] == Zeros(k - 1);
      ValueZeros(k - 1);
    }
  }

  /** n rendered in decimal, left-padded with zeros to at least `width` digits. */
  function PadLeft(n: nat, width: nat): (s: string)
    ensures AllDigits(s) && Value(s) == n
    ensures |s| >= width
    ensures 1 <= width && n < Pow10(width) ==> |s| == width
  {
    DigitsValue(n, width);
    var d := Digits(n);
    var z := if |d| < width then Zeros(width - |d|) else [];
    ValueAppend(z, d);
    ValueZeros(|z|);
    z + d
  }

  /** Zero rendered to a width of w is w zeros. */
  lemma PadLeftZero(w: nat)
    requires w >= 1
    ensures PadLeft(0, w) == Zeros(w)
  {
    ValueZeros(w);
    PadLeftOfValue(Zeros(w));
  }

  /** A digit string of length w is the zero-padded rendering of its own value. */
  lemma PadLeftOfValue(s: string)
    requires AllDigits(s) && |s| >= 1
    ensures PadLeft(Value(s), |s|) == s
  {
    ValueBound(s);
    ValueInjective(PadLeft(Value(s), |s|), s);
  }
}
