// Integer division facts shared by the time and calendar models. Dafny's
// `/` and `%` are Euclidean: for a positive divisor the quotient is the
// floor and the remainder is never negative, which is exactly the
// normalisation the time setters perform.

module Arith {

  /** Quotient and remainder are determined by any decomposition x == q * d + r with 0 <= r < d. */
  lemma DivModUnique(x: int, d: int, q: int, r: int)
    requires d > 0 && 0 <= r < d
    requires x == q * d + r
    ensures x / d == q && x % d == r
  {
    var q', r' := x / d, x % d;
    assert (q - q') * d == r' - r;
    MulAtLeastOne(q - q', d);
    MulAtLeastOne(q' - q, d);
  }

  lemma MulAtLeastOne(a: int, d: int)
    ensures a >= 1 && d > 0 ==> a * d >= d
  {
    if a >= 1 && d > 0 {
      assert a * d == (a - 1) * d + d;
      MulNonNegative(a - 1, d);
    }
  }

  lemma MulNonNegative(a: int, b: int)
    requires a >= 0 && b >= 0
    ensures a * b >= 0
  {
  }

  /**
   * A count of `unit`s plus a remainder below one unit, reduced modulo
   * `count` units: the count is reduced modulo `count` and the remainder
   * is kept.
   */
  lemma ModUnits(n: int, unit: int, count: int, rest: int)
    requires unit > 0 && count > 0 && 0 <= rest < unit
    ensures (n * unit + rest) % (count * unit) == (n % count) * unit + rest
    ensures (n * unit + rest) / unit == n
    ensures (n * unit + rest) % unit == rest
  {
    var q, k := n / count, n % count;
    assert n * unit == q * (count * unit) + k * unit by {
      assert n == q * count + k;
    }
    assert k * unit <= (count - 1) * unit by {
      MulNonNegative(count - 1 - k, unit);
      assert (count - 1) * unit - k * unit == (count - 1 - k) * unit;
    }
    MulNonNegative(k, unit);
    DivModUnique(n * unit + rest, count * unit, q, k * unit + rest);
    DivModUnique(n * unit + rest, unit, n, rest);
  }

  /** Shifting by a whole number of periods leaves the remainder unchanged. */
  lemma ModShift(x: int, k: int, d: int)
    requires d > 0
    ensures (x + k * d) % d == x % d
  {
    DivModUnique(x + k * d, d, x / d + k, x % d);
  }

  /** PHP's `%`: the remainder truncated toward zero, carrying the sign of the dividend. */
  function PhpRem(a: int, b: int): (r: int)
    requires b > 0
    ensures a >= 0 ==> 0 <= r < b
    ensures a < 0 ==> -b < r <= 0
    ensures (a - r) % b == 0
  {
    if a >= 0 then
      DivModUnique(a - a % b, b, a / b, 0);
      a % b
    else
      DivModUnique(a + (-a) % b, b, -((-a) / b), 0);
      -((-a) % b)
  }
}
