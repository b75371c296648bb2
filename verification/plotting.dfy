/** The two computations behind the photon-statistics figures: the empirical
    probability mass function of a column of photon counts, with a counting
    error bar per value, and the rule that lays several such plots out on a
    grid. */
module Plotting {
  import opened Wrappers
  import opened Stats
  import opened RealFacts

  // ---------------------------------------------------------------------
  // Observations

  /** `astype(int)`: drops the fractional part, rounding toward zero. */
  function Truncate(x: real): (k: int)
    ensures x >= 0.0 ==> k as real <= x < k as real + 1.0
    ensures x < 0.0 ==> k as real - 1.0 < x <= k as real
  {
    if x >= 0.0 then x.Floor else -((-x).Floor)
  }

  function TruncateAll(xs: seq<real>): (r: seq<int>)
    ensures |r| == |xs|
    ensures forall i :: 0 <= i < |xs| ==> r[i] == Truncate(xs[i])
  {
    if |xs| == 0 then [] else [Truncate(xs[0])] + TruncateAll(xs[1..])
  }

  /** `to_numeric(..., errors="coerce").dropna().astype(int)`: the column's
      readings that are numbers, truncated to integers. A `None` reading
      stands for a cell that could not be read as a number. */
  function Observations(column: seq<Option<real>>): (s: seq<int>)
    ensures |s| == |Defined(column)|
    ensures forall i :: 0 <= i < |s| ==> s[i] == Truncate(Defined(column)[i])
  {
    TruncateAll(Defined(column))
  }

  // ---------------------------------------------------------------------
  // Counting distinct values

  /** One line of `value_counts()`: a value and how often it occurs. */
  datatype Entry = Entry(value: int, count: nat)

  /** Values strictly ascending, as after `sort_index()`. */
  predicate Ascending(t: seq<Entry>) {
    forall i, j :: 0 <= i < j < |t| ==> t[i].value < t[j].value
  }

  predicate PositiveCounts(t: seq<Entry>) {
    forall i :: 0 <= i < |t| ==> t[i].count > 0
  }

  /** How often `k` is recorded in the table (0 when it has no entry). */
  function CountOf(t: seq<Entry>, k: int): nat {
    if |t| == 0 then 0 else (if t[0].value == k then t[0].count else 0) + CountOf(t[1..], k)
  }

  /** The total of all counts. */
  function Total(t: seq<Entry>): nat {
    if |t| == 0 then 0 else t[0].count + Total(t[1..])
  }

  function Values(t: seq<Entry>): set<int> {
    set i | 0 <= i < |t| :: t[i].value
  }

  /** Records one more occurrence of `v`, keeping the values ascending. */
  function Insert(t: seq<Entry>, v: int): (r: seq<Entry>)
    requires Ascending(t) && PositiveCounts(t)
    ensures Ascending(r) && PositiveCounts(r)
    ensures |r| > 0 && r[0].value == (if |t| > 0 && t[0].value < v then t[0].value else v)
  {
    if |t| == 0 then [Entry(v, 1)]
    else if v < t[0].value then [Entry(v, 1)] + t
    else if v == t[0].value then [Entry(v, t[0].count + 1)] + t[1..]
    else
      var rest := Insert(t[1..], v);
      var r := [t[0]] + rest;
      assert forall j :: 0 < j < |r| ==> r[0].value < r[j].value by {
        forall j | 0 < j < |r|
          ensures r[0].value < r[j].value
        {
          if j > 1 {
            assert rest[0].value < rest[j - 1].value;
          }
        }
      }
      r
  }

  /** Inserting `v` adds one occurrence of `v` and leaves every other
      value's count alone. */
  lemma {:induction false} InsertCounts(t: seq<Entry>, v: int, k: int)
    requires Ascending(t) && PositiveCounts(t)
    ensures CountOf(Insert(t, v), k) == CountOf(t, k) + (if k == v then 1 else 0)
  {
    var r := Insert(t, v);
    if |t| == 0 {
    } else if v < t[0].value {
      assert r[1..] == t;
      if k == v {
        AbsentBelowFirst(t, v);
      }
    } else if v == t[0].value {
      assert r[1..] == t[1..];
    } else {
      assert r[1..] == Insert(t[1..], v);
      InsertCounts(t[1..], v, k);
    }
  }

  lemma {:induction false} InsertTotal(t: seq<Entry>, v: int)
    requires Ascending(t) && PositiveCounts(t)
    ensures Total(Insert(t, v)) == Total(t) + 1
  {
    var r := Insert(t, v);
    if |t| == 0 {
    } else if v < t[0].value {
      assert r[1..] == t;
    } else if v == t[0].value {
      assert r[1..] == t[1..];
    } else {
      assert r[1..] == Insert(t[1..], v);
      InsertTotal(t[1..], v);
    }
  }

  lemma {:induction false} InsertValues(t: seq<Entry>, v: int)
    requires Ascending(t) && PositiveCounts(t)
    ensures Values(Insert(t, v)) == Values(t) + {v}
  {
    var r := Insert(t, v);
    if |t| == 0 {
      assert r == [Entry(v, 1)];
      ValuesCons(Entry(v, 1), []);
    } else if v < t[0].value {
      ValuesCons(Entry(v, 1), t);
    } else if v == t[0].value {
      ValuesCons(Entry(v, t[0].count + 1), t[1..]);
      ValuesCons(t[0], t[1..]);
      assert [t[0]] + t[1..] == t;
    } else {
      InsertValues(t[1..], v);
      ValuesCons(t[0], Insert(t[1..], v));
      ValuesCons(t[0], t[1..]);
      assert [t[0]] + t[1..] == t;
    }
  }

  /** A value below the first entry of an ascending table is not in it. */
  lemma {:induction false} AbsentBelowFirst(t: seq<Entry>, v: int)
    requires Ascending(t) && |t| > 0 && v < t[0].value
    ensures CountOf(t, v) == 0
  {
    if |t| > 1 {
      AbsentBelowFirst(t[1..], v);
    }
  }

  lemma ValuesCons(e: Entry, t: seq<Entry>)
    ensures Values([e] + t) == {e.value} + Values(t)
  {
    var u := [e] + t;
    forall x | x in Values(u)
      ensures x in {e.value} + Values(t)
    {
      var i :| 0 <= i < |u| && u[i].value == x;
      if i > 0 {
        assert t[i - 1].value == x;
      }
    }
    forall x | x in Values(t)
      ensures x in Values(u)
    {
      var i :| 0 <= i < |t| && t[i].value == x;
      assert u[i + 1].value == x;
    }
    assert u[0].value == e.value;
  }

  /** `value_counts().sort_index()`: every distinct observation once, in
      ascending order, with its number of occurrences. */
  function Tally(s: seq<int>): (t: seq<Entry>)
    ensures Ascending(t) && PositiveCounts(t)
  {
    if |s| == 0 then [] else Insert(Tally(s[1..]), s[0])
  }

  /** The tally records each value exactly as often as it was observed. */
  lemma {:induction false} TallyCounts(s: seq<int>, k: int)
    ensures CountOf(Tally(s), k) == multiset(s)[k]
  {
    if |s| > 0 {
      assert s == [s[0]] + s[1..];
      TallyCounts(s[1..], k);
      InsertCounts(Tally(s[1..]), s[0], k);
    }
  }

  /** The counts add up to the number of observations. */
  lemma {:induction false} TallyTotal(s: seq<int>)
    ensures Total(Tally(s)) == |s|
  {
    if |s| > 0 {
      TallyTotal(s[1..]);
      InsertTotal(Tally(s[1..]), s[0]);
    }
  }

  /** The tallied values are exactly the distinct observations. */
  lemma {:induction false} TallyValues(s: seq<int>)
    ensures Values(Tally(s)) == set k | k in s
  {
    if |s| > 0 {
      assert s == [s[0]] + s[1..];
      TallyValues(s[1..]);
      InsertValues(Tally(s[1..]), s[0]);
      assert (set k | k in s) == (set k | k in s[1..]) + {s[0]};
    }
  }

  // ---------------------------------------------------------------------
  // The probability mass function

  /** One bar of the figure: a value k, its count n_k, p_k = n_k / N and
      the error bar sqrt(n_k) / N, carried through its square. */
  datatype Bar = Bar(value: int, count: nat, probability: real, error: Root)

  /** Every bar's probability is its count over `n`, and its error bar is
      the square root of its count over `n`. */
  predicate ScaledBy(r: seq<Bar>, n: nat) {
    forall i :: 0 <= i < |r| ==>
      && r[i].probability * n as real == r[i].count as real
      && r[i].error.square * (n * n) as real == r[i].count as real
  }

  /** The bar for one tally entry out of `n` observations. */
  function BarFor(e: Entry, n: nat): (b: Bar)
    requires n > 0
    ensures b.value == e.value && b.count == e.count
    ensures b.probability * n as real == e.count as real
    ensures b.error.square * (n * n) as real == e.count as real
  {
    var nn := (n * n) as real;
    assert nn != 0.0;
    Bar(e.value, e.count, e.count as real / n as real, Root(e.count as real / nn))
  }

  function Bars(t: seq<Entry>, n: nat): (r: seq<Bar>)
    requires n > 0
    ensures |r| == |t|
    ensures forall i :: 0 <= i < |t| ==> r[i].value == t[i].value && r[i].count == t[i].count
    ensures ScaledBy(r, n)
  {
    seq(|t|, i requires 0 <= i < |t| => BarFor(t[i], n))
  }

  /** The bars for observations `s`: p_k = n_k / N and the error bar
      sqrt(n_k) / N for every distinct observed value k, in ascending order
      of k. With no observation there is no bar. */
  function Distribution(s: seq<int>): (r: seq<Bar>)
    ensures |s| == 0 <==> r == []
    ensures forall i, j :: 0 <= i < j < |r| ==> r[i].value < r[j].value
    ensures (set i | 0 <= i < |r| :: r[i].value) == (set k | k in s)
    ensures forall i :: 0 <= i < |r| ==> r[i].count == multiset(s)[r[i].value]
    ensures ScaledBy(r, |s|)
  {
    if |s| == 0 then []
    else
      var t := Tally(s);
      var r := Bars(t, |s|);
      assert (set i | 0 <= i < |r| :: r[i].value) == (set k | k in s) by {
        TallyValues(s);
        assert Values(t) == set i | 0 <= i < |r| :: r[i].value;
      }
      assert forall i :: 0 <= i < |r| ==> r[i].count == multiset(s)[r[i].value] by {
        CountsAreMultiplicities(s);
      }
      r
  }

  /** The probability mass function `fdp_histograma` returns, together with
      the error bars it draws: one bar per distinct truncated reading, in
      ascending order, counting that reading's occurrences; empty exactly
      when the column holds no readable number, and otherwise scaled by the
      number of readable cells. */
  function Pmf(column: seq<Option<real>>): (r: seq<Bar>)
    ensures r == [] <==> forall i :: 0 <= i < |column| ==> column[i].None?
    ensures forall i, j :: 0 <= i < j < |r| ==> r[i].value < r[j].value
    ensures (set i | 0 <= i < |r| :: r[i].value) == (set k | k in Observations(column))
    ensures forall i :: 0 <= i < |r| ==> r[i].count == multiset(Observations(column))[r[i].value]
    ensures ScaledBy(r, |Defined(column)|)
  {
    Distribution(Observations(column))
  }

  /** Each entry's count is the multiplicity of its value. */
  lemma CountsAreMultiplicities(s: seq<int>)
    ensures forall i :: 0 <= i < |Tally(s)| ==> Tally(s)[i].count == multiset(s)[Tally(s)[i].value]
  {
    var t := Tally(s);
    forall i | 0 <= i < |t|
      ensures t[i].count == multiset(s)[t[i].value]
    {
      EntryCount(t, i);
      TallyCounts(s, t[i].value);
    }
  }

  lemma {:induction false} EntryCount(t: seq<Entry>, i: nat)
    requires Ascending(t) && i < |t|
    ensures CountOf(t, t[i].value) == t[i].count
  {
    if i == 0 {
      if |t| > 1 {
        AbsentBelowFirst(t[1..], t[0].value);
      }
    } else {
      EntryCount(t[1..], i - 1);
    }
  }

  // ---------------------------------------------------------------------
  // Properties of the distribution

  function ProbabilityMass(r: seq<Bar>): real {
    if |r| == 0 then 0.0 else r[0].probability + ProbabilityMass(r[1..])
  }

  function CountMass(r: seq<Bar>): nat {
    if |r| == 0 then 0 else r[0].count + CountMass(r[1..])
  }

  lemma {:induction false} MassScales(r: seq<Bar>, n: nat)
    requires ScaledBy(r, n)
    ensures ProbabilityMass(r) * n as real == CountMass(r) as real
  {
    if |r| > 0 {
      assert ScaledBy(r[1..], n) by {
        forall i | 0 <= i < |r[1..]|
          ensures r[1..][i].probability * n as real == r[1..][i].count as real
          ensures r[1..][i].error.square * (n * n) as real == r[1..][i].count as real
        {
          assert r[1..][i] == r[i + 1];
        }
      }
      MassScales(r[1..], n);
      AddScaled(r[0].probability, ProbabilityMass(r[1..]), n as real, r[0].count as real, CountMass(r[1..]) as real);
    }
  }

  /** Bars carrying the counts of a tally, entry by entry, carry its total. */
  lemma {:induction false} CountMassOfCounts(r: seq<Bar>, t: seq<Entry>)
    requires |r| == |t|
    requires forall i :: 0 <= i < |t| ==> r[i].count == t[i].count
    ensures CountMass(r) == Total(t)
  {
    if |t| > 0 {
      CountMassOfCounts(r[1..], t[1..]);
    }
  }

  lemma BarsCountMass(t: seq<Entry>, n: nat)
    requires n > 0
    ensures CountMass(Bars(t, n)) == Total(t)
  {
    CountMassOfCounts(Bars(t, n), t);
  }

  /** The probabilities of a non-empty sample add up to one. */
  lemma ProbabilitiesSumToOne(s: seq<int>)
    requires |s| > 0
    ensures ProbabilityMass(Distribution(s)) == 1.0
  {
    TallyTotal(s);
    BarsSumToOne(Tally(s), |s|);
  }

  lemma BarsSumToOne(t: seq<Entry>, n: nat)
    requires n > 0 && Total(t) == n
    ensures ProbabilityMass(Bars(t, n)) == 1.0
  {
    BarsCountMass(t, n);
    ScaledMassIsOne(Bars(t, n), n);
  }

  lemma ScaledMassIsOne(r: seq<Bar>, n: nat)
    requires n > 0 && ScaledBy(r, n) && CountMass(r) == n
    ensures ProbabilityMass(r) == 1.0
  {
    MassScales(r, n);
    Cancel(ProbabilityMass(r), 1.0, n as real);
  }

  lemma {:induction false} CountAtMostTotal(t: seq<Entry>, k: int)
    ensures CountOf(t, k) <= Total(t)
  {
    if |t| > 0 {
      CountAtMostTotal(t[1..], k);
    }
  }

  /** Every probability lies in (0, 1], and so does every squared error bar. */
  lemma ProbabilitiesInUnitInterval(s: seq<int>)
    ensures forall i :: 0 <= i < |Distribution(s)| ==>
              0.0 < Distribution(s)[i].probability <= 1.0
              && 0.0 < Distribution(s)[i].error.square <= 1.0
  {
    var r := Distribution(s);
    forall i | 0 <= i < |r|
      ensures 1 <= r[i].count <= |s|
    {
      var k := r[i].value;
      assert k in (set j | 0 <= j < |r| :: r[j].value);
      TallyCounts(s, k);
      TallyTotal(s);
      CountAtMostTotal(Tally(s), k);
    }
    BarsInUnitInterval(r, |s|);
  }

  lemma BarsInUnitInterval(r: seq<Bar>, n: nat)
    requires ScaledBy(r, n)
    requires forall i :: 0 <= i < |r| ==> 1 <= r[i].count <= n
    ensures forall i :: 0 <= i < |r| ==> 0.0 < r[i].probability <= 1.0 && 0.0 < r[i].error.square <= 1.0
  {
    forall i | 0 <= i < |r|
      ensures 0.0 < r[i].probability <= 1.0 && 0.0 < r[i].error.square <= 1.0
    {
      BarInUnitInterval(r[i].probability, r[i].error.square, r[i].count as real, n as real);
    }
  }

  lemma BarInUnitInterval(p: real, q: real, c: real, d: real)
    requires p * d == c && q * (d * d) == c && 1.0 <= c <= d
    ensures 0.0 < p <= 1.0 && 0.0 < q <= 1.0
  {
    UnitFraction(p, c, d);
    SquareAtLeast(d);
    UnitFraction(q, c, d * d);
  }

  /** Whole numbers, the usual content of a count column, pass the integer
      conversion unchanged. */
  lemma TruncateKeepsIntegers(k: int)
    ensures Truncate(k as real) == k
  {
  }

  // ---------------------------------------------------------------------
  // Grid layout

  /** A layout of plots: `rows` by `cols` panels. */
  datatype Grid = Grid(rows: nat, cols: nat)

  datatype GridError =
    | NoPlots(n: int)          // `n must be >= 1`
    | NoLayoutTried(n: int)    // no column count was tried, so `best` is still None

  /** Scores closer than this count as a tie. */
  const Tolerance: real := 0.000000000001

  /** `math.ceil(n / cols)`, computed exactly. */
  function CeilDiv(n: nat, cols: nat): (rows: nat)
    requires n > 0 && cols > 0
    ensures rows >= 1
    ensures (rows - 1) * cols < n <= rows * cols
  {
    (n + cols - 1) / cols
  }

  /** One tried layout with its number of empty cells and its score. */
  datatype Choice = Choice(rows: nat, cols: nat, empty: nat, score: real)

  function Square(x: real): real {
    x * x
  }

  /** The layout `cols` gives for `n` plots, scored as empty * 5 +
      (cols / rows - 1.3)^2 * 4 + (cols - rows)^2 * 0.3. */
  function ChoiceFor(n: nat, cols: nat): (c: Choice)
    requires n > 0 && cols > 0
    ensures c.cols == cols
    ensures (c.rows - 1) * cols < n <= c.rows * cols
    ensures c.empty == c.rows * cols - n && c.empty < cols
  {
    var rows := CeilDiv(n, cols);
    var empty := rows * cols - n;
    var aspect := cols as real / rows as real;
    var score := empty as real * 5.0 + Square(aspect - 1.3) * 4.0 + Square((cols - rows) as real) * 0.3;
    Choice(rows, cols, empty, score)
  }

  function Abs(x: real): real {
    if x < 0.0 then -x else x
  }

  /** The replacement test, as written: a strictly better score, or a score
      within the tolerance whose (empty, rows) pair is lexicographically
      below the pair (rows, cols) of the current best. */
  predicate Replaces(c: Choice, best: Option<Choice>)
    ensures best.None? ==> Replaces(c, best)
    ensures best.Some? && c.score < best.value.score ==> Replaces(c, best)
    ensures Replaces(c, best) && best.Some? ==> c.score < best.value.score + Tolerance
  {
    || best.None?
    || c.score < best.value.score
    || (Abs(c.score - best.value.score) < Tolerance
        && (c.empty < best.value.rows || (c.empty == best.value.rows && c.rows < best.value.cols)))
  }

  /** A choice that `ChoiceFor` produced for a column count in 2..last. */
  predicate Tried(n: nat, last: nat, c: Choice)
    requires n > 0
  {
    2 <= c.cols <= last && c == ChoiceFor(n, c.cols)
  }

  /** The loop over `cols` in `2..last`, starting at `cols` with the best
      choice so far. */
  function Scan(n: nat, cols: nat, last: nat, best: Option<Choice>): (r: Option<Choice>)
    requires n > 0 && 2 <= cols <= last + 1
    requires best.Some? ==> Tried(n, last, best.value)
    ensures r.Some? ==> Tried(n, last, r.value)
    ensures best.Some? || cols <= last ==> r.Some?
    decreases last + 1 - cols
  {
    if cols > last then best
    else
      var c := ChoiceFor(n, cols);
      Scan(n, cols + 1, last, if Replaces(c, best) then Some(c) else best)
  }

  /** `best_grid(n, max_cols=maxCols)`. */
  function BestGrid(n: int, maxCols: int): (r: Result<Grid, GridError>)
    ensures n <= 0 <==> r == Failure(NoPlots(n))
    ensures 1 <= n <= 3 ==> r == Success(Grid(1, n))
    ensures n >= 4 ==> (r.Failure? <==> maxCols < 2)
    ensures n >= 4 && r.Failure? ==> r.error == NoLayoutTried(n)
    ensures n >= 4 && r.Success? ==>
              && 2 <= r.value.cols <= maxCols && r.value.cols <= n
              && (r.value.rows - 1) * r.value.cols < n <= r.value.rows * r.value.cols
              && r.value.rows * r.value.cols - n < r.value.cols
  {
    if n <= 0 then Failure(NoPlots(n))
    else if n <= 3 then Success(Grid(1, n))
    else
      var last := if maxCols < n then maxCols else n;
      if last < 2 then Failure(NoLayoutTried(n))
      else
        var c := Scan(n, 2, last, None).value;
        Success(Grid(c.rows, c.cols))
  }

  /** The loop keeps a choice whose score exceeds that of any tried column
      count by less than the tolerance per later step: replacing on a
      near-tie may raise the kept score, but by less than the tolerance. */
  lemma {:induction false} ScanNearMinimal(n: nat, cols: nat, last: nat, best: Option<Choice>)
    requires n > 0 && 2 <= cols <= last + 1
    requires best.Some? ==> Tried(n, last, best.value)
    requires best.Some? || cols <= last
    requires forall k :: 2 <= k < cols ==>
               best.Some? && best.value.score <= ChoiceFor(n, k).score + (cols - 1 - k) as real * Tolerance
    ensures forall k :: 2 <= k <= last ==>
              Scan(n, cols, last, best).value.score <= ChoiceFor(n, k).score + (last - k) as real * Tolerance
    decreases last + 1 - cols
  {
    if cols <= last {
      var c := ChoiceFor(n, cols);
      var next := if Replaces(c, best) then Some(c) else best;
      assert next.value.score <= c.score;
      assert best.Some? ==> next.value.score < best.value.score + Tolerance;
      forall k | 2 <= k < cols + 1
        ensures next.value.score <= ChoiceFor(n, k).score + (cols - k) as real * Tolerance
      {
        if k < cols {
          var ck := ChoiceFor(n, k);
          assert best.Some? && best.value.score <= ChoiceFor(n, k).score + (cols - 1 - k) as real * Tolerance;
          assert (cols - 1 - k) as real * Tolerance + Tolerance == (cols - k) as real * Tolerance;
        }
      }
      ScanNearMinimal(n, cols + 1, last, next);
    }
  }

  /** Apart from near-ties, `best_grid` picks a layout of least score: its
      score is within (min(max_cols, n) - k) * 1e-12 of the score of any
      tried column count k. */
  lemma BestGridNearMinimal(n: int, maxCols: int, k: nat)
    requires n >= 4 && maxCols >= 2
    requires 2 <= k <= maxCols && k <= n
    ensures var g := BestGrid(n, maxCols).value;
            var last := if maxCols < n then maxCols else n;
            ChoiceFor(n, g.cols).score <= ChoiceFor(n, k).score + (last - k) as real * Tolerance
  {
    var last := if maxCols < n then maxCols else n;
    ScanNearMinimal(n, 2, last, None);
  }

  /** No two tried column counts score within the tolerance of each other. */
  predicate NoNearTies(n: nat, last: nat)
    requires n > 0
  {
    forall a, b :: 2 <= a < b <= last ==> Abs(ChoiceFor(n, a).score - ChoiceFor(n, b).score) >= Tolerance
  }

  lemma {:induction false} ScanMinimal(n: nat, cols: nat, last: nat, best: Option<Choice>)
    requires n > 0 && 2 <= cols <= last + 1 && NoNearTies(n, last)
    requires best.Some? ==> Tried(n, last, best.value) && best.value.cols < cols
    requires best.Some? || cols <= last
    requires forall k :: 2 <= k < cols ==> best.Some? && best.value.score <= ChoiceFor(n, k).score
    ensures forall k :: 2 <= k <= last ==> Scan(n, cols, last, best).value.score <= ChoiceFor(n, k).score
    decreases last + 1 - cols
  {
    if cols <= last {
      var c := ChoiceFor(n, cols);
      if best.Some? {
        assert Abs(best.value.score - c.score) >= Tolerance;
      }
      var next := if Replaces(c, best) then Some(c) else best;
      ScanMinimal(n, cols + 1, last, next);
    }
  }

  /** Without near-ties the chosen layout has the least score of all tried
      column counts. */
  lemma BestGridMinimal(n: int, maxCols: int)
    requires n >= 4 && maxCols >= 2
    requires NoNearTies(n, if maxCols < n then maxCols else n)
    ensures var g := BestGrid(n, maxCols).value;
            forall k :: 2 <= k <= maxCols && k <= n ==> ChoiceFor(n, g.cols).score <= ChoiceFor(n, k).score
  {
    var last := if maxCols < n then maxCols else n;
    ScanMinimal(n, 2, last, None);
  }

  /** Four plots make a 2 x 2 grid under the default `max_cols=6`. */
  lemma BestGridOfFour()
    ensures BestGrid(4, 6) == Success(Grid(2, 2))
  {
    var c2, c3, c4 := ChoiceFor(4, 2), ChoiceFor(4, 3), ChoiceFor(4, 4);
    assert c2 == Choice(2, 2, 0, 0.36);
    assert c3 == Choice(2, 3, 2, 10.46);
    assert c4 == Choice(1, 4, 0, 31.86);
    assert Scan(4, 2, 4, None) == Scan(4, 3, 4, Some(c2));
    assert Scan(4, 3, 4, Some(c2)) == Scan(4, 4, 4, Some(c2));
  }
}
