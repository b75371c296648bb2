/** Facts about real arithmetic that the solver does not find on its own:
    cancelling a non-zero factor, and signs and bounds of products. */
module RealFacts {

  lemma Cancel(x: real, y: real, d: real)
    requires d != 0.0 && x * d == y * d
    ensures x == y
  {
    assert x == (x * d) / d;
    assert y == (y * d) / d;
  }

  lemma CancelPositive(a: real, b: real, n: real)
    requires n > 0.0
    requires a * n <= b * n
    ensures a <= b
  {
  }

  lemma AddScaled(a: real, b: real, n: real, ca: real, cb: real)
    requires a * n == ca && b * n == cb
    ensures (a + b) * n == ca + cb
  {
  }

  /** `v` times `q` is the whole number `total`: with `q` a power of ten,
      `v` is `total` with its decimal point moved left. */
  predicate PointShifted(v: real, q: nat, total: nat) {
    v * q as real == total as real
  }

  /** Moving the decimal point of `w.n` (with `q` = 10^digits of `n`) right
      to the end gives the integer `w * q + n`. Without a point, `q` is 1
      and `n` is 0. */
  lemma ShiftPoint(w: nat, n: nat, q: nat, point: bool, v: real, total: nat)
    requires q > 0
    requires point || (q == 1 && n == 0)
    requires v == w as real + if point then n as real / q as real else 0.0
    requires total == w * q + n
    ensures PointShifted(v, q, total)
  {
    assert (w * q) as real == w as real * q as real;
    if point {
      assert (n as real / q as real) * q as real == n as real;
    }
  }

  lemma DivideThenMultiply(a: real, d: real, f: real)
    requires d != 0.0
    ensures (a / d * f) * d == a * f
  {
    assert (a / d) * d == a;
  }

  lemma SquareNonNegative(d: real)
    ensures d * d >= 0.0
  {
    if d < 0.0 {
      var e := -d;
      assert d * d == e * e;
    }
  }

  lemma SquareAtLeast(d: real)
    requires d >= 1.0
    ensures d <= d * d
  {
    var e := d - 1.0;
    assert d * d == (1.0 + e) * (1.0 + e);
    assert (1.0 + e) * (1.0 + e) == 1.0 + 2.0 * e + e * e;
    assert e * e >= 0.0;
  }

  /** x = c / d with 0 < c <= d lies in (0, 1]. */
  lemma UnitFraction(x: real, c: real, d: real)
    requires 0.0 < c <= d && x * d == c
    ensures 0.0 < x <= 1.0
  {
    assert x == c / d;
  }
}
