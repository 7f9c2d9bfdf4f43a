/**
 * Rounding half to even, the rule of Python's built-in `round` and of pandas' `Series.round`,
 * on an exact quotient `n / d`. Scores are integer tenths, so bucketing a score is rounding
 * `tenths / 10`; a group mean is rounded as the exact fraction `sum / count`.
 */
module Rounding {

  function Abs(x: int): nat {
    if x < 0 then -x else x
  }

  /** `m` is an integer nearest to `n / d`; of two equally near integers it is the even one. */
  predicate IsRoundHalfEven(n: int, d: int, m: int)
    requires d > 0
  {
    && 2 * Abs(m * d - n) <= d
    && (2 * Abs(m * d - n) == d ==> m % 2 == 0)
  }

  /** `round(n / d)` with ties to even, computed from the floor quotient and the remainder. */
  function RoundHalfEven(n: int, d: int): (m: int)
    requires d > 0
    ensures IsRoundHalfEven(n, d, m)
  {
    var q := n / d;
    var r := n % d;
    assert n == q * d + r;
    assert (q + 1) * d - n == d - r;
    if 2 * r < d then q
    else if 2 * r > d then q + 1
    else if q % 2 == 0 then q else q + 1
  }

  lemma MulBounds(k: int, d: int)
    requires d > 0
    ensures k >= 2 ==> k * d >= 2 * d
    ensures k <= -1 ==> k * d <= -d
  {
    if k >= 2 {
      assert k * d == 2 * d + (k - 2) * d;
    } else if k <= -1 {
      assert k * d == -d + (k + 1) * d;
    }
  }

  /** Half-to-even rounding has exactly one answer, so `RoundHalfEven` is that answer. */
  lemma RoundHalfEvenUnique(n: int, d: int, m: int)
    requires d > 0 && IsRoundHalfEven(n, d, m)
    ensures m == RoundHalfEven(n, d)
  {
    var q := n / d;
    var r := n % d;
    var k := m - q;
    assert n == q * d + r;
    assert m * d - n == k * d - r by {
      assert m * d == q * d + k * d;
    }
    MulBounds(k, d);
    assert k == 0 || k == 1;
    if k == 1 {
      assert m * d - n == d - r;
    }
  }

  /** The same rule read on the rational `n / d`: the distance to `m` is at most one half. */
  lemma RoundHalfEvenOnRational(n: int, d: int)
    requires d > 0
    ensures var x := n as real / d as real; var m := RoundHalfEven(n, d);
      && -0.5 <= m as real - x <= 0.5
      && (m as real - x == 0.5 || m as real - x == -0.5 ==> m % 2 == 0)
  {
    var m := RoundHalfEven(n, d);
    var dr := d as real;
    var e := m * d - n;
    QuotientDifference(n as real, m as real, dr);
    RealOfProduct(m, d);
    var er := (m as real) * dr - n as real;
    assert er == e as real;
    ScaledBounds(er, dr);
    assert m as real - n as real / dr == er / dr;
    assert 2.0 * er == dr ==> 2 * e == d;
    assert 2.0 * er == -dr ==> 2 * e == -d;
  }

  lemma RealOfProduct(m: int, d: int)
    ensures (m * d) as real == m as real * d as real
  {
  }

  lemma QuotientDifference(n: real, m: real, d: real)
    requires d > 0.0
    ensures m - n / d == (m * d - n) / d
  {
  }

  lemma ScaledBounds(e: real, d: real)
    requires d > 0.0 && -d <= 2.0 * e <= d
    ensures -0.5 <= e / d <= 0.5
    ensures e / d == 0.5 ==> 2.0 * e == d
    ensures e / d == -0.5 ==> 2.0 * e == -d
  {
    assert e / d * d == e;
  }
}
