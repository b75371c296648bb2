/** Sample statistics of a non-empty series of readings: the arithmetic mean,
    the Bessel-corrected standard deviation and the standard error of the
    mean, with the convention that the spread of fewer than two readings is
    exactly zero. */
module Stats {
  import opened Wrappers
  import opened RealFacts

  /** The non-negative square root of `square`. Dafny's reals have no square
      root, so a root is carried symbolically and every statement about it
      is a statement about its square. `Root(0.0)` is exactly zero. */
  datatype Root = Root(square: real)

  function Sum(xs: seq<real>): real {
    if |xs| == 0 then 0.0 else xs[0] + Sum(xs[1..])
  }

  function SumOfSquares(xs: seq<real>): real {
    if |xs| == 0 then 0.0 else xs[0] * xs[0] + SumOfSquares(xs[1..])
  }

  /** Sum of the squared deviations of the readings from `c`. */
  function SquaredDeviation(xs: seq<real>, c: real): real {
    if |xs| == 0 then 0.0 else (xs[0] - c) * (xs[0] - c) + SquaredDeviation(xs[1..], c)
  }

  function Mean(xs: seq<real>): real
    requires |xs| > 0
  {
    Sum(xs) / |xs| as real
  }

  /** `np.var(xs, ddof=1)` for two or more readings, and 0 otherwise. */
  /** `np.var(xs, ddof=1)`, taken as 0 below two readings. */
  function Variance(xs: seq<real>): (r: real)
    requires |xs| > 0
    ensures r >= 0.0
    ensures |xs| < 2 ==> r == 0.0
    ensures |xs| >= 2 ==> r * (|xs| - 1) as real == SquaredDeviation(xs, Mean(xs))
  {
    SquaredDeviationNonNegative(xs, Mean(xs));
    if |xs| < 2 then 0.0 else SquaredDeviation(xs, Mean(xs)) / (|xs| - 1) as real
  }

  /** The mean/std/SEM triple the session summary reports for one series. */
  datatype Moments = Moments(mean: real, std: Root, sem: Root)

  /** Mean, sample standard deviation (N - 1 denominator) and standard error
      of the mean `std / sqrt(N)`; both spreads are exactly 0 below two
      readings. */
  function Describe(xs: seq<real>): (r: Moments)
    requires |xs| > 0
    ensures r.mean * |xs| as real == Sum(xs)
    ensures |xs| < 2 ==> r.std == Root(0.0) && r.sem == Root(0.0)
    ensures |xs| >= 2 ==> r.std.square * (|xs| - 1) as real == SquaredDeviation(xs, r.mean)
    ensures r.std.square >= 0.0
    ensures r.sem.square * |xs| as real == r.std.square
  {
    var v := Variance(xs);
    Moments(Mean(xs), Root(v), Root(v / |xs| as real))
  }

  lemma {:induction false} SquaredDeviationNonNegative(xs: seq<real>, c: real)
    ensures SquaredDeviation(xs, c) >= 0.0
  {
    if |xs| > 0 {
      SquareNonNegative(xs[0] - c);
      SquaredDeviationNonNegative(xs[1..], c);
    }
  }

  lemma {:induction false} SumBounds(xs: seq<real>, lo: real, hi: real)
    requires forall i :: 0 <= i < |xs| ==> lo <= xs[i] <= hi
    ensures |xs| as real * lo <= Sum(xs) <= |xs| as real * hi
  {
    if |xs| > 0 {
      SumBounds(xs[1..], lo, hi);
    }
  }

  /** The mean lies between any lower and upper bound of the readings. */
  lemma MeanBetweenBounds(xs: seq<real>, lo: real, hi: real)
    requires |xs| > 0
    requires forall i :: 0 <= i < |xs| ==> lo <= xs[i] <= hi
    ensures lo <= Describe(xs).mean <= hi
  {
    SumBounds(xs, lo, hi);
    var n := |xs| as real;
    var m := Describe(xs).mean;
    CancelPositive(lo, m, n);
    CancelPositive(m, hi, n);
  }

  lemma {:induction false} SquaredDeviationExpansion(xs: seq<real>, c: real)
    ensures SquaredDeviation(xs, c) == SumOfSquares(xs) - 2.0 * c * Sum(xs) + |xs| as real * c * c
  {
    if |xs| > 0 {
      SquaredDeviationExpansion(xs[1..], c);
    }
  }

  /** The textbook shortcut for moments `d` of `xs`: (N - 1) * std^2 equals
      the sum of squares minus N times the squared mean. */
  predicate ShortcutHolds(xs: seq<real>, d: Moments) {
    d.std.square * (|xs| - 1) as real == SumOfSquares(xs) - |xs| as real * d.mean * d.mean
  }

  /** The summary's spread agrees with the textbook shortcut, an independent
      route to the same number. */
  lemma VarianceShortcut(xs: seq<real>)
    requires |xs| >= 2
    ensures ShortcutHolds(xs, Describe(xs))
  {
    ShortcutFor(xs, Describe(xs));
  }

  lemma ShortcutFor(xs: seq<real>, d: Moments)
    requires d.mean * |xs| as real == Sum(xs)
    requires d.std.square * (|xs| - 1) as real == SquaredDeviation(xs, d.mean)
    ensures ShortcutHolds(xs, d)
  {
    ExpandedAt(xs, d.mean);
    ShortcutAlgebra(d.std.square * (|xs| - 1) as real, SquaredDeviation(xs, d.mean), SumOfSquares(xs),
                    Sum(xs), d.mean, |xs| as real);
  }

  /** The expansion of the squared deviation, as one fact about its totals. */
  predicate Expanded(dev: real, squares: real, sum: real, n: real, c: real) {
    dev == squares - 2.0 * c * sum + n * c * c
  }

  lemma ExpandedAt(xs: seq<real>, c: real)
    ensures Expanded(SquaredDeviation(xs, c), SumOfSquares(xs), Sum(xs), |xs| as real, c)
  {
    SquaredDeviationExpansion(xs, c);
  }

  lemma ShortcutAlgebra(lhs: real, dev: real, squares: real, sum: real, m: real, n: real)
    requires lhs == dev
    requires Expanded(dev, squares, sum, n, m)
    requires m * n == sum
    ensures lhs == squares - n * m * m
  {
    assert 2.0 * m * sum == 2.0 * (m * (m * n));
    assert m * (m * n) == n * m * m;
  }

  /** A constant series has that constant as its mean and no spread. */
  lemma {:induction false} ConstantSeries(xs: seq<real>, c: real)
    requires |xs| > 0
    requires forall i :: 0 <= i < |xs| ==> xs[i] == c
    ensures Describe(xs) == Moments(c, Root(0.0), Root(0.0))
  {
    SumBounds(xs, c, c);
    ConstantDeviation(xs, c);
    assert Mean(xs) * |xs| as real == c * |xs| as real;
    Cancel(Mean(xs), c, |xs| as real);
  }

  lemma {:induction false} ConstantDeviation(xs: seq<real>, c: real)
    requires forall i :: 0 <= i < |xs| ==> xs[i] == c
    ensures SquaredDeviation(xs, c) == 0.0
  {
    if |xs| > 0 {
      ConstantDeviation(xs[1..], c);
    }
  }

  // ---------------------------------------------------------------------
  // Dropping undefined readings

  /** `x[np.isfinite(x)]` or `dropna()`: the defined readings, in order. */
  function Defined(xs: seq<Option<real>>): (r: seq<real>)
    ensures |r| <= |xs|
    ensures forall v :: v in r <==> Some(v) in xs
    ensures |r| == 0 <==> forall i :: 0 <= i < |xs| ==> xs[i].None?
  {
    if |xs| == 0 then []
    else match xs[0]
      case None => Defined(xs[1..])
      case Some(v) => [v] + Defined(xs[1..])
  }

  /** The mean of the defined readings lies between any bounds of them. */
  lemma DefinedMeanBetweenBounds(xs: seq<Option<real>>, lo: real, hi: real)
    requires Defined(xs) != []
    requires forall i :: 0 <= i < |xs| && xs[i].Some? ==> lo <= xs[i].value <= hi
    ensures lo <= Describe(Defined(xs)).mean <= hi
  {
    var ys := Defined(xs);
    forall k | 0 <= k < |ys|
      ensures lo <= ys[k] <= hi
    {
      assert ys[k] in ys;
      var i :| 0 <= i < |xs| && xs[i] == Some(ys[k]);
    }
    MeanBetweenBounds(ys, lo, hi);
  }

  /** Filtering commutes with concatenation: together with the one-reading
      cases this pins `Defined` down as the in-order list of numbers. */
  lemma {:induction false} DefinedConcat(xs: seq<Option<real>>, ys: seq<Option<real>>)
    ensures Defined(xs + ys) == Defined(xs) + Defined(ys)
  {
    if |xs| > 0 {
      assert (xs + ys)[1..] == xs[1..] + ys;
      DefinedConcat(xs[1..], ys);
    } else {
      assert xs + ys == ys;
    }
  }

  lemma DefinedSingle(x: Option<real>)
    ensures Defined([x]) == if x.Some? then [x.value] else []
  {
  }
}
