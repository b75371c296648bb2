/** The second-order correlation engine: resolve the count columns of one
    session's table, compute g2(0) row by row with the two-detector (2D) or
    heralded three-detector (3D) formula, drop the undefined rows and
    summarise what is left together with the g2 column the acquisition
    software may have written itself. */
module G2 {
  import opened Wrappers
  import opened Text
  import opened Stats
  import opened IoUtils
  import opened RealFacts

  // ---------------------------------------------------------------------
  // Tables

  /** One session's table, column by column. A cell is `None` where the CSV
      cell is empty or NaN; every other cell of a column the engine reads
      holds a number. */
  datatype Table = Table(columns: seq<string>, cells: seq<seq<Option<real>>>, rows: nat)

  /** Every column has a cell for every row. */
  predicate WellFormed(t: Table) {
    |t.cells| == |t.columns| && forall j :: 0 <= j < |t.cells| ==> |t.cells[j]| == t.rows
  }

  datatype G2Error =
    | MissingColumn(requested: string, available: seq<string>)
    | UnknownMode(mode: string)
    | NoValidData(session: string, mode: string)

  // ---------------------------------------------------------------------
  // Column resolution

  /** The first index at or after `from` whose column name satisfies `p`. */
  function FirstWhere(columns: seq<string>, p: string -> bool, from: nat): (r: Option<nat>)
    requires from <= |columns|
    ensures r.Some? ==> from <= r.value < |columns| && p(columns[r.value])
    ensures r.Some? ==> forall j :: from <= j < r.value ==> !p(columns[j])
    ensures r.None? <==> forall j :: from <= j < |columns| ==> !p(columns[j])
    decreases |columns| - from
  {
    if from == |columns| then None
    else if p(columns[from]) then Some(from)
    else FirstWhere(columns, p, from + 1)
  }

  /** Some column is `name` up to case and surrounding whitespace. */
  predicate Named(columns: seq<string>, name: string) {
    exists j :: 0 <= j < |columns| && Normalize(columns[j]) == Normalize(name)
  }

  /** `_col`: the first column equal to `name` once both are stripped and
      lower-cased, or a missing-column error listing the available ones. */
  function ResolveColumn(columns: seq<string>, name: string): (r: Result<nat, G2Error>)
    ensures r.Success? <==> Named(columns, name)
    ensures r.Success? ==> r.value < |columns| && Normalize(columns[r.value]) == Normalize(name)
    ensures r.Success? ==> forall j :: 0 <= j < r.value ==> Normalize(columns[j]) != Normalize(name)
    ensures r.Failure? ==> r.error == MissingColumn(name, columns)
  {
    var key := Normalize(name);
    var p := c => Normalize(c) == key;
    var found := FirstWhere(columns, p, 0);
    assert forall j :: 0 <= j < |columns| ==> (p(columns[j]) <==> Normalize(columns[j]) == key);
    if found.Some? then Success(found.value) else Failure(MissingColumn(name, columns))
  }

  /** A column whose normalised name contains "g2". */
  predicate G2Candidate(c: string) {
    Contains(Normalize(c), "g2")
  }

  /** A candidate that reads "g2(0)" or "g2(0.0)" once its blanks are gone. */
  predicate G2Preferred(c: string) {
    G2Candidate(c) && RemoveBlanks(Normalize(c)) in {"g2(0)", "g2(0.0)"}
  }

  /** `_maybe_g2_col`: no column when there is no candidate; otherwise the
      first preferred candidate, or failing that the first candidate. */
  function MaybeG2Column(columns: seq<string>): (r: Option<nat>)
    ensures r.None? <==> forall j :: 0 <= j < |columns| ==> !G2Candidate(columns[j])
    ensures r.Some? ==> r.value < |columns| && G2Candidate(columns[r.value])
    ensures r.Some? && G2Preferred(columns[r.value]) ==>
              forall j :: 0 <= j < r.value ==> !G2Preferred(columns[j])
    ensures r.Some? && !G2Preferred(columns[r.value]) ==>
              (forall j :: 0 <= j < |columns| ==> !G2Preferred(columns[j]))
              && (forall j :: 0 <= j < r.value ==> !G2Candidate(columns[j]))
  {
    var candidate := FirstWhere(columns, G2Candidate, 0);
    var preferred := FirstWhere(columns, G2Preferred, 0);
    if candidate.None? then None
    else if preferred.Some? then preferred
    else candidate
  }

  /** The column of the table that `ResolveColumn` picks for `name`. */
  function Column(t: Table, name: string): (r: seq<Option<real>>)
    requires WellFormed(t) && Named(t.columns, name)
    ensures |r| == t.rows
  {
    t.cells[ResolveColumn(t.columns, name).value]
  }

  /** The g2 values the acquisition software wrote, if it wrote any. */
  function FileReadings(t: Table): (r: Option<seq<Option<real>>>)
    requires WellFormed(t)
    ensures r.None? <==> forall j :: 0 <= j < |t.columns| ==> !G2Candidate(t.columns[j])
    ensures r.Some? ==> |r.value| == t.rows
    ensures r.Some? ==> MaybeG2Column(t.columns).Some? && r.value == t.cells[MaybeG2Column(t.columns).value]
  {
    match MaybeG2Column(t.columns)
    case None => None
    case Some(j) => Some(t.cells[j])
  }

  // ---------------------------------------------------------------------
  // Row formulas

  /** T / tau with tau converted from nanoseconds to microseconds, or no
      factor at all (NaN) when the window is not positive. */
  function UnitFactor(info: MeasurementInfo): (r: Option<real>)
    ensures r.Some? <==> info.windowNs > 0.0
    ensures r.Some? ==> r.value * info.windowNs == info.testTimeUs * 1000.0
  {
    var tauUs := info.windowNs * (1.0 / 1000.0);
    if tauUs > 0.0 then Some(info.testTimeUs / tauUs) else None
  }

  /** 2D: g2 = NTR / (NT * NR) * (T / tau), defined only where the product
      of the single counts is positive and every input is a number. */
  function CoincidenceRatio2D(nt: Option<real>, nr: Option<real>, ntr: Option<real>, factor: Option<real>): (g: Option<real>)
    ensures g.Some? <==> nt.Some? && nr.Some? && ntr.Some? && factor.Some? && nt.value * nr.value > 0.0
    ensures g.Some? ==> g.value * (nt.value * nr.value) == ntr.value * factor.value
  {
    if nt.Some? && nr.Some? && ntr.Some? && factor.Some? && nt.value * nr.value > 0.0 then
      var d := nt.value * nr.value;
      DivideThenMultiply(ntr.value, d, factor.value);
      Some(ntr.value / d * factor.value)
    else None
  }

  /** 3D: g2 = (NGTR * NG) / (NGT * NGR), defined only where the product of
      the two heralded counts is positive and every input is a number. */
  function CoincidenceRatio3D(ng: Option<real>, ngt: Option<real>, ngr: Option<real>, ngtr: Option<real>): (g: Option<real>)
    ensures g.Some? <==> ng.Some? && ngt.Some? && ngr.Some? && ngtr.Some? && ngt.value * ngr.value > 0.0
    ensures g.Some? ==> g.value * (ngt.value * ngr.value) == ngtr.value * ng.value
  {
    if ng.Some? && ngt.Some? && ngr.Some? && ngtr.Some? && ngt.value * ngr.value > 0.0 then
      Some((ngtr.value * ng.value) / (ngt.value * ngr.value))
    else None
  }

  // ---------------------------------------------------------------------
  // Whole tables

  /** The recomputed g2 per row and, when present, the file's own g2 column. */
  datatype Readings = Readings(counts: seq<Option<real>>, file: Option<seq<Option<real>>>)

  /** The 2D formula applied row by row. */
  function Rows2D(nt: seq<Option<real>>, nr: seq<Option<real>>, ntr: seq<Option<real>>, factor: Option<real>): (r: seq<Option<real>>)
    requires |nr| == |nt| && |ntr| == |nt|
    ensures |r| == |nt|
    ensures forall i :: 0 <= i < |nt| ==> r[i] == CoincidenceRatio2D(nt[i], nr[i], ntr[i], factor)
  {
    seq(|nt|, i requires 0 <= i < |nt| => CoincidenceRatio2D(nt[i], nr[i], ntr[i], factor))
  }

  /** `compute_g2_2d`: the columns NT, NR and NTR are looked up in that
      order and the first missing one is reported. */
  function Compute2D(t: Table, info: MeasurementInfo): (r: Result<Readings, G2Error>)
    requires WellFormed(t)
    ensures r.Success? <==> Named(t.columns, "NT") && Named(t.columns, "NR") && Named(t.columns, "NTR")
    ensures r.Failure? ==> r.error == MissingColumn(
              if !Named(t.columns, "NT") then "NT" else if !Named(t.columns, "NR") then "NR" else "NTR",
              t.columns)
    ensures r.Success? ==> |r.value.counts| == t.rows && r.value.file == FileReadings(t)
    ensures r.Success? ==> forall i :: 0 <= i < t.rows ==>
              r.value.counts[i] == CoincidenceRatio2D(Column(t, "NT")[i], Column(t, "NR")[i],
                                                      Column(t, "NTR")[i], UnitFactor(info))
  {
    var _ :- ResolveColumn(t.columns, "NT");
    var _ :- ResolveColumn(t.columns, "NR");
    var _ :- ResolveColumn(t.columns, "NTR");
    Success(Readings(Rows2D(Column(t, "NT"), Column(t, "NR"), Column(t, "NTR"), UnitFactor(info)), FileReadings(t)))
  }

  /** The 3D formula applied row by row. */
  function Rows3D(ng: seq<Option<real>>, ngt: seq<Option<real>>, ngr: seq<Option<real>>, ngtr: seq<Option<real>>): (r: seq<Option<real>>)
    requires |ngt| == |ng| && |ngr| == |ng| && |ngtr| == |ng|
    ensures |r| == |ng|
    ensures forall i :: 0 <= i < |ng| ==> r[i] == CoincidenceRatio3D(ng[i], ngt[i], ngr[i], ngtr[i])
  {
    seq(|ng|, i requires 0 <= i < |ng| => CoincidenceRatio3D(ng[i], ngt[i], ngr[i], ngtr[i]))
  }

  /** `compute_g2_3d`: the columns NG, NGT, NGR and NGTR are looked up in
      that order; the measurement info is accepted and not used. */
  function Compute3D(t: Table, info: MeasurementInfo): (r: Result<Readings, G2Error>)
    requires WellFormed(t)
    ensures r.Success? <==> Named(t.columns, "NG") && Named(t.columns, "NGT")
                            && Named(t.columns, "NGR") && Named(t.columns, "NGTR")
    ensures r.Failure? ==> r.error == MissingColumn(
              if !Named(t.columns, "NG") then "NG" else if !Named(t.columns, "NGT") then "NGT"
              else if !Named(t.columns, "NGR") then "NGR" else "NGTR",
              t.columns)
    ensures r.Success? ==> |r.value.counts| == t.rows && r.value.file == FileReadings(t)
    ensures r.Success? ==> forall i :: 0 <= i < t.rows ==>
              r.value.counts[i] == CoincidenceRatio3D(Column(t, "NG")[i], Column(t, "NGT")[i],
                                                      Column(t, "NGR")[i], Column(t, "NGTR")[i])
  {
    var _ :- ResolveColumn(t.columns, "NG");
    var _ :- ResolveColumn(t.columns, "NGT");
    var _ :- ResolveColumn(t.columns, "NGR");
    var _ :- ResolveColumn(t.columns, "NGTR");
    Success(Readings(Rows3D(Column(t, "NG"), Column(t, "NGT"), Column(t, "NGR"), Column(t, "NGTR")),
                     FileReadings(t)))
  }

  // ---------------------------------------------------------------------
  // Session summary

  /** The result of `summarize_session`. The three file statistics are
      either all present or all absent, so they travel as one option. */
  datatype G2Summary = G2Summary(
    sessionName: string,
    mode: string,
    rows: nat,
    file: Option<Moments>,
    counts: Moments,
    testTimeUs: real,
    windowNs: real)

  /** The per-row readings for a mode, or the error that mode raises. */
  function Readout(mode: string, t: Table, info: MeasurementInfo): (r: Result<Readings, G2Error>)
    requires WellFormed(t)
    ensures mode != "2D" && mode != "3D" ==> r == Failure(UnknownMode(mode))
    ensures mode == "2D" ==> r == Compute2D(t, info)
    ensures mode == "3D" ==> r == Compute3D(t, info)
  {
    if mode == "2D" then Compute2D(t, info)
    else if mode == "3D" then Compute3D(t, info)
    else Failure(UnknownMode(mode))
  }

  /** Statistics of the defined file readings, absent when the table has no
      g2 column or that column holds no number. */
  function FileMoments(file: Option<seq<Option<real>>>): (r: Option<Moments>)
    ensures r.None? <==> file.None? || Defined(file.value) == []
    ensures r.Some? ==> r.value == Describe(Defined(file.value))
  {
    match file
    case None => None
    case Some(xs) => var ys := Defined(xs); if |ys| == 0 then None else Some(Describe(ys))
  }

  /** `summarize_session`. */
  function Summarize(name: string, mode: string, t: Table, info: MeasurementInfo): (r: Result<G2Summary, G2Error>)
    requires WellFormed(t)
    ensures Readout(mode, t, info).Failure? ==> r == Failure(Readout(mode, t, info).error)
    ensures Readout(mode, t, info).Success? && Defined(Readout(mode, t, info).value.counts) == []
            ==> r == Failure(NoValidData(name, mode))
    ensures r.Success? <==> Readout(mode, t, info).Success? && Defined(Readout(mode, t, info).value.counts) != []
    ensures r.Success? ==>
              var rd := Readout(mode, t, info).value;
              && Defined(rd.counts) != []
              && r.value.counts == Describe(Defined(rd.counts))
              && r.value.file == FileMoments(rd.file)
    ensures r.Success? ==> r.value.sessionName == name && r.value.mode == mode && r.value.rows == t.rows
    ensures r.Success? ==> r.value.testTimeUs == info.testTimeUs && r.value.windowNs == info.windowNs
  {
    var rd :- Readout(mode, t, info);
    var counts := Defined(rd.counts);
    if |counts| == 0 then Failure(NoValidData(name, mode))
    else Success(G2Summary(name, mode, t.rows, FileMoments(rd.file), Describe(counts),
                           info.testTimeUs, info.windowNs))
  }

  // ---------------------------------------------------------------------
  // Properties

  /** A column is found under any spelling that differs only in case and
      surrounding whitespace, and it is the same column. */
  lemma ResolveColumnIgnoresSpelling(columns: seq<string>, a: string, b: string)
    requires Normalize(a) == Normalize(b)
    ensures ResolveColumn(columns, a).Success? == ResolveColumn(columns, b).Success?
    ensures ResolveColumn(columns, a).Success? ==> ResolveColumn(columns, a).value == ResolveColumn(columns, b).value
  {
  }

  /** With the default metadata (1e6 us over 5 ns) the 2D factor is 2e8. */
  lemma DefaultUnitFactor()
    ensures UnitFactor(MeasurementInfo(DefaultTestTimeUs, DefaultWindowNs)) == Some(200000000.0)
  {
  }

  /** Only the ratio T / tau matters: scaling both by the same positive
      amount leaves the factor unchanged. */
  lemma UnitFactorScaleInvariant(info: MeasurementInfo, k: real)
    requires k > 0.0
    ensures UnitFactor(MeasurementInfo(k * info.testTimeUs, k * info.windowNs)) == UnitFactor(info)
  {
    var scaled := MeasurementInfo(k * info.testTimeUs, k * info.windowNs);
    if info.windowNs > 0.0 {
      assert k * info.windowNs > 0.0;
      var f := UnitFactor(info).value;
      var g := UnitFactor(scaled).value;
      assert g * (k * info.windowNs) == k * (f * info.windowNs);
      assert (g - f) * (k * info.windowNs) == 0.0;
    } else {
      assert k * info.windowNs <= 0.0;
    }
  }

  /** Exchanging the two detectors does not change g2, in either mode. */
  lemma DetectorSymmetry(a: Option<real>, b: Option<real>, c: Option<real>, d: Option<real>)
    ensures CoincidenceRatio2D(a, b, c, d) == CoincidenceRatio2D(b, a, c, d)
    ensures CoincidenceRatio3D(a, b, c, d) == CoincidenceRatio3D(a, c, b, d)
  {
  }

  /** Uncorrelated light: when the coincidences are exactly what chance
      gives, NTR * T == NT * NR * tau, the 2D g2 is 1. */
  lemma UncorrelatedCountsGiveOne2D(nt: real, nr: real, ntr: real, info: MeasurementInfo)
    requires nt * nr > 0.0 && info.windowNs > 0.0
    requires ntr * (info.testTimeUs * 1000.0) == nt * nr * info.windowNs
    ensures CoincidenceRatio2D(Some(nt), Some(nr), Some(ntr), UnitFactor(info)) == Some(1.0)
  {
    var f := UnitFactor(info).value;
    var g := CoincidenceRatio2D(Some(nt), Some(nr), Some(ntr), UnitFactor(info)).value;
    var d := nt * nr;
    var w := info.windowNs;
    assert (g * d) * w == ntr * (f * w);
    Cancel(g * d, d, w);
    Cancel(g, 1.0, d);
  }

  /** The heralded counterpart: NGTR * NG == NGT * NGR gives a 3D g2 of 1. */
  lemma UncorrelatedCountsGiveOne3D(ng: real, ngt: real, ngr: real, ngtr: real)
    requires ngt * ngr > 0.0
    requires ngtr * ng == ngt * ngr
    ensures CoincidenceRatio3D(Some(ng), Some(ngt), Some(ngr), Some(ngtr)) == Some(1.0)
  {
    var g := CoincidenceRatio3D(Some(ng), Some(ngt), Some(ngr), Some(ngtr)).value;
    Cancel(g, 1.0, ngt * ngr);
  }

  /** A 2D row whose three counts are numbers and whose single counts have
      a positive product. */
  predicate Usable2D(nt: Option<real>, nr: Option<real>, ntr: Option<real>) {
    nt.Some? && nr.Some? && ntr.Some? && nt.value * nr.value > 0.0
  }

  /** In any mode whose columns resolve, the session is rejected for lack
      of data exactly when no row's g2 is defined. */
  lemma NoValidDataExactlyWhenNothingDefined(name: string, mode: string, t: Table, info: MeasurementInfo)
    requires WellFormed(t) && Readout(mode, t, info).Success?
    ensures Summarize(name, mode, t, info) == Failure(NoValidData(name, mode))
            <==> forall i :: 0 <= i < |Readout(mode, t, info).value.counts| ==> Readout(mode, t, info).value.counts[i].None?
  {
  }

  /** No row of the three columns is usable. */
  predicate NoRowUsable2D(nt: seq<Option<real>>, nr: seq<Option<real>>, ntr: seq<Option<real>>)
    requires |nt| == |nr| == |ntr|
  {
    forall i :: 0 <= i < |nt| ==> !Usable2D(nt[i], nr[i], ntr[i])
  }

  lemma RejectedExactlyWhenNoRowUsable(rejected: bool, nt: seq<Option<real>>, nr: seq<Option<real>>,
                                       ntr: seq<Option<real>>, w: real, counts: seq<Option<real>>)
    requires |counts| == |nt| == |nr| == |ntr|
    requires rejected <==> forall i :: 0 <= i < |counts| ==> counts[i].None?
    requires forall i :: 0 <= i < |counts| ==> (counts[i].Some? <==> w > 0.0 && Usable2D(nt[i], nr[i], ntr[i]))
    ensures rejected <==> w <= 0.0 || NoRowUsable2D(nt, nr, ntr)
  {
  }

  /** Which 2D rows get a g2: those whose counts are usable, provided the
      coincidence window is positive. */
  lemma RowsDefined2D(t: Table, info: MeasurementInfo)
    requires WellFormed(t) && Named(t.columns, "NT") && Named(t.columns, "NR") && Named(t.columns, "NTR")
    ensures forall i :: 0 <= i < |Compute2D(t, info).value.counts| ==>
              (Compute2D(t, info).value.counts[i].Some?
               <==> info.windowNs > 0.0 && Usable2D(Column(t, "NT")[i], Column(t, "NR")[i], Column(t, "NTR")[i]))
  {
    var counts := Compute2D(t, info).value.counts;
    var nt, nr, ntr := Column(t, "NT"), Column(t, "NR"), Column(t, "NTR");
    forall i | 0 <= i < |counts|
      ensures counts[i].Some? <==> info.windowNs > 0.0 && Usable2D(nt[i], nr[i], ntr[i])
    {
      assert counts[i] == CoincidenceRatio2D(nt[i], nr[i], ntr[i], UnitFactor(info));
      RatioDefined2D(nt[i], nr[i], ntr[i], info);
    }
  }

  lemma RatioDefined2D(nt: Option<real>, nr: Option<real>, ntr: Option<real>, info: MeasurementInfo)
    ensures CoincidenceRatio2D(nt, nr, ntr, UnitFactor(info)).Some? <==> info.windowNs > 0.0 && Usable2D(nt, nr, ntr)
  {
  }

  /** A 2D session is rejected for lack of data exactly when the window is
      not positive or no row is usable. */
  lemma NoValidData2D(name: string, t: Table, info: MeasurementInfo)
    requires WellFormed(t) && Named(t.columns, "NT") && Named(t.columns, "NR") && Named(t.columns, "NTR")
    ensures Summarize(name, "2D", t, info) == Failure(NoValidData(name, "2D"))
            <==> info.windowNs <= 0.0 || NoRowUsable2D(Column(t, "NT"), Column(t, "NR"), Column(t, "NTR"))
  {
    NoValidDataExactlyWhenNothingDefined(name, "2D", t, info);
    RowsDefined2D(t, info);
    RejectedExactlyWhenNoRowUsable(Summarize(name, "2D", t, info) == Failure(NoValidData(name, "2D")),
                                   Column(t, "NT"), Column(t, "NR"), Column(t, "NTR"),
                                   info.windowNs, Compute2D(t, info).value.counts);
  }

  /** The recomputed mean lies within the range of the usable rows' g2. */
  lemma SummaryMeanWithinRange(name: string, mode: string, t: Table, info: MeasurementInfo, lo: real, hi: real)
    requires WellFormed(t)
    requires Summarize(name, mode, t, info).Success?
    requires forall i :: 0 <= i < |Readout(mode, t, info).value.counts| && Readout(mode, t, info).value.counts[i].Some?
               ==> lo <= Readout(mode, t, info).value.counts[i].value <= hi
    ensures lo <= Summarize(name, mode, t, info).value.counts.mean <= hi
  {
    var xs := Readout(mode, t, info).value.counts;
    assert Summarize(name, mode, t, info).value.counts == Describe(Defined(xs));
    DefinedMeanBetweenBounds(xs, lo, hi);
  }

  /** In 3D the measurement info only travels into the summary's metadata:
      the statistics are the same whatever the test time and window. */
  lemma ThreeDIgnoresMeasurementInfo(name: string, t: Table, a: MeasurementInfo, b: MeasurementInfo)
    requires WellFormed(t)
    ensures Summarize(name, "3D", t, a).Success? == Summarize(name, "3D", t, b).Success?
    ensures Summarize(name, "3D", t, a).Success? ==>
              Summarize(name, "3D", t, a).value.counts == Summarize(name, "3D", t, b).value.counts
              && Summarize(name, "3D", t, a).value.file == Summarize(name, "3D", t, b).value.file
  {
  }

  /** The file's own g2 statistics do not depend on the mode or the
      metadata, only on the table. */
  lemma FileStatisticsDependOnTableOnly(name: string, m1: string, m2: string, t: Table, a: MeasurementInfo, b: MeasurementInfo)
    requires WellFormed(t)
    requires Summarize(name, m1, t, a).Success? && Summarize(name, m2, t, b).Success?
    ensures Summarize(name, m1, t, a).value.file == Summarize(name, m2, t, b).value.file
  {
  }
}
