/** The per-session measurement metadata and the reader of the free-text
    info file. Two fixed patterns are searched for, each ignoring case:

      Tiempo\s*de\s*Prueba\s*:\s*([0-9]*\.?[0-9]+)\s*us
      Ventana\s*de\s*Coincidencia\s*:\s*([0-9]*\.?[0-9]+)\s*ns

    Each field is taken from the leftmost match of its own pattern and
    falls back to its own default otherwise; reading never fails. The
    patterns are matched by a deterministic scanner (`MatchAt`), and
    `MatchAtAgreesWithPattern` proves that it accepts exactly the strings of
    the pattern's language (`InLanguage`), with the same captured number. */
module IoUtils {
  import opened Wrappers
  import opened Text
  import opened RealFacts

  /** Test time in microseconds and coincidence window in nanoseconds. */
  datatype MeasurementInfo = MeasurementInfo(testTimeUs: real, windowNs: real)

  const DefaultTestTimeUs: real := 1000000.0
  const DefaultWindowNs: real := 5.0

  // ---------------------------------------------------------------------
  // Pattern description

  /** One element of a key or unit pattern: a literal (an ASCII lower-case
      letter or ':') matched ignoring case, or `\s*`. */
  datatype Atom = Lit(c: char) | Blanks

  /** `key ([0-9]*\.?[0-9]+) unit`. */
  datatype Pattern = Pattern(key: seq<Atom>, unit: seq<Atom>)

  /** The literal atoms spelling `w`. */
  function Word(w: string): (r: seq<Atom>)
    ensures |r| == |w|
    ensures forall i :: 0 <= i < |w| ==> r[i] == Lit(w[i])
  {
    if |w| == 0 then [] else [Lit(w[0])] + Word(w[1..])
  }

  /** `Tiempo\s*de\s*Prueba\s*:\s*([0-9]*\.?[0-9]+)\s*us`, ignoring case. */
  const TimePattern: Pattern :=
    Pattern(Word("tiempo") + ([Blanks] + (Word("de") + ([Blanks] + (Word("prueba") + [Blanks, Lit(':'), Blanks])))),
            [Blanks] + Word("us"))

  /** `Ventana\s*de\s*Coincidencia\s*:\s*([0-9]*\.?[0-9]+)\s*ns`, ignoring case. */
  const WindowPattern: Pattern :=
    Pattern(Word("ventana") + ([Blanks] + (Word("de") + ([Blanks] + (Word("coincidencia") + [Blanks, Lit(':'), Blanks])))),
            [Blanks] + Word("ns"))

  /** Whether a text character matches a pattern literal under `re.IGNORECASE`:
      the literal itself, its ASCII upper-case form, and the extra case
      pairs Python's matcher knows for these letters ('i' also matches
      U+0130 and U+0131, 's' also matches U+017F). */
  predicate FoldsTo(c: char, lit: char) {
    || LowerChar(c) == lit
    || (lit == 'i' && (c == '\U{130}' || c == '\U{131}'))
    || (lit == 's' && c == '\U{17F}')
  }

  /** A captured number `[0-9]*\.?[0-9]+`: the digits before the point and,
      when there is a point, the digits after it. */
  datatype Decimal = Decimal(whole: string, fraction: Option<string>)

  predicate AllDigits(s: string) {
    forall i :: 0 <= i < |s| ==> IsDigit(s[i])
  }

  /** The shapes `[0-9]*\.?[0-9]+` admits: digits after a point when there is
      one, and at least one digit when there is none. No sign, no exponent,
      no trailing point. */
  predicate WellFormedDecimal(d: Decimal) {
    && AllDigits(d.whole)
    && (d.fraction.None? ==> |d.whole| > 0)
    && (d.fraction.Some? ==> |d.fraction.value| > 0 && AllDigits(d.fraction.value))
  }

  function Render(d: Decimal): string {
    d.whole + if d.fraction.Some? then "." + d.fraction.value else ""
  }

  function DigitsValue(s: string): nat
    requires AllDigits(s)
  {
    if |s| == 0 then 0
    else DigitsValue(s[..|s| - 1]) * 10 + (s[|s| - 1] as int - '0' as int)
  }

  function Pow10(k: nat): (r: nat)
    ensures r > 0
  {
    if k == 0 then 1 else 10 * Pow10(k - 1)
  }

  /** `float(...)` of the captured text, with exact decimal arithmetic. */
  function Value(d: Decimal): (r: real)
    requires WellFormedDecimal(d)
    ensures r >= 0.0
  {
    DigitsValue(d.whole) as real
      + if d.fraction.Some? then DigitsValue(d.fraction.value) as real / Pow10(|d.fraction.value|) as real
        else 0.0
  }

  /** The digits of `a + b` read as one number: those of `a` shifted by
      `|b|` places, plus those of `b`. */
  lemma {:induction false} DigitsValueConcat(a: string, b: string)
    requires AllDigits(a) && AllDigits(b)
    ensures AllDigits(a + b)
    ensures DigitsValue(a + b) == DigitsValue(a) * Pow10(|b|) + DigitsValue(b)
    decreases |b|
  {
    if |b| == 0 {
      assert a + b == a;
    } else {
      var front := b[..|b| - 1];
      assert (a + b)[..|a + b| - 1] == a + front;
      assert (a + b)[|a + b| - 1] == b[|b| - 1];
      assert AllDigits(front);
      DigitsValueConcat(a, front);
      assert DigitsValue(a) * Pow10(|front|) * 10 == DigitsValue(a) * Pow10(|b|);
    }
  }

  /** The digits after the point, none when there is no point. */
  function FractionDigits(d: Decimal): string {
    if d.fraction.Some? then d.fraction.value else ""
  }

  /** `float` neither loses nor invents a digit: the value times ten to the
      number of digits after the point is the integer that all the digits
      spell, read with the point removed. */
  lemma ValueShiftsDigits(d: Decimal)
    requires WellFormedDecimal(d)
    ensures AllDigits(d.whole + FractionDigits(d))
    ensures PointShifted(Value(d), Pow10(|FractionDigits(d)|), DigitsValue(d.whole + FractionDigits(d)))
  {
    DigitsValueConcat(d.whole, FractionDigits(d));
    ShiftPoint(DigitsValue(d.whole), DigitsValue(FractionDigits(d)), Pow10(|FractionDigits(d)|),
               d.fraction.Some?, Value(d), DigitsValue(d.whole + FractionDigits(d)));
  }

  // ---------------------------------------------------------------------
  // The language of a pattern (what the regular expression accepts)

  predicate AllBlank(text: string, i: int, j: int)
    requires 0 <= i <= j <= |text|
  {
    forall k :: i <= k < j ==> IsSpace(text[k])
  }

  /** `text[i..e]` is in the language of `atoms`, each `Blanks` taking any
      run of whitespace. */
  ghost predicate Spans(atoms: seq<Atom>, text: string, i: int, e: int)
    decreases |atoms|
  {
    && 0 <= i <= e <= |text|
    && if atoms == [] then i == e
       else match atoms[0]
         case Lit(c) => i < e && FoldsTo(text[i], c) && Spans(atoms[1..], text, i + 1, e)
         case Blanks => exists j :: i <= j <= e && AllBlank(text, i, j) && Spans(atoms[1..], text, j, e)
  }

  /** `text[j..k]` spells the number `d`. */
  ghost predicate DecimalAt(text: string, j: int, k: int, d: Decimal) {
    0 <= j <= k <= |text| && WellFormedDecimal(d) && text[j..k] == Render(d)
  }

  /** `text[i..e]` matches the whole pattern `p`, capturing `d`. */
  ghost predicate InLanguage(p: Pattern, text: string, i: int, e: int, d: Decimal) {
    exists j, k :: Spans(p.key, text, i, j) && DecimalAt(text, j, k, d) && Spans(p.unit, text, k, e)
  }

  // ---------------------------------------------------------------------
  // The scanner

  /** The end of the whitespace run starting at `i`. */
  function SkipBlanks(text: string, i: nat): (j: nat)
    requires i <= |text|
    ensures i <= j <= |text|
    ensures AllBlank(text, i, j)
    ensures j == |text| || !IsSpace(text[j])
    decreases |text| - i
  {
    if i < |text| && IsSpace(text[i]) then SkipBlanks(text, i + 1) else i
  }

  /** The end of the digit run starting at `i`. */
  function SkipDigits(text: string, i: nat): (j: nat)
    requires i <= |text|
    ensures i <= j <= |text|
    ensures AllDigits(text[i..j])
    ensures j == |text| || !IsDigit(text[j])
    decreases |text| - i
  {
    if i < |text| && IsDigit(text[i]) then
      var j := SkipDigits(text, i + 1);
      assert text[i..j] == [text[i]] + text[i + 1..j];
      j
    else i
  }

  /** Matches the literal-and-blank atoms from `i`, taking every
      whitespace run whole; the end of the match, if any. */
  function MatchAtoms(atoms: seq<Atom>, text: string, i: nat): (r: Option<nat>)
    requires i <= |text|
    ensures r.Some? ==> i <= r.value <= |text|
    decreases |atoms|
  {
    if atoms == [] then Some(i)
    else match atoms[0]
      case Lit(c) => if i < |text| && FoldsTo(text[i], c) then MatchAtoms(atoms[1..], text, i + 1) else None
      case Blanks => MatchAtoms(atoms[1..], text, SkipBlanks(text, i))
  }

  /** Reads `[0-9]*\.?[0-9]+` from `j`: the whole digit run, then a point
      and a second digit run when one follows. Because every unit pattern
      starts with whitespace or a letter, this longest reading is the only
      one the rest of the pattern can accept. */
  function ScanDecimal(text: string, j: nat): (r: Option<(Decimal, nat)>)
    requires j <= |text|
    ensures r.Some? ==> DecimalAt(text, j, r.value.1, r.value.0)
  {
    var w := SkipDigits(text, j);
    if w < |text| && text[w] == '.' && SkipDigits(text, w + 1) > w + 1 then
      var k := SkipDigits(text, w + 1);
      SplitAtPoint(text, j, w, k);
      Some((Decimal(text[j..w], Some(text[w + 1..k])), k))
    else if w > j then Some((Decimal(text[j..w], None), w))
    else None
  }

  lemma SplitAtPoint(text: string, j: nat, w: nat, k: nat)
    requires j <= w < k <= |text| && text[w] == '.'
    ensures text[j..k] == text[j..w] + "." + text[w + 1..k]
  {
    assert text[j..k] == text[j..w] + text[w..k];
    assert text[w..k] == [text[w]] + text[w + 1..k];
  }

  /** The number captured by a match of `p` starting exactly at `i`. */
  function MatchAt(p: Pattern, text: string, i: nat): (r: Option<Decimal>)
    requires i <= |text|
    ensures r.Some? ==> WellFormedDecimal(r.value)
  {
    match MatchAtoms(p.key, text, i)
    case None => None
    case Some(j) =>
      match ScanDecimal(text, j)
      case None => None
      case Some(dk) => if MatchAtoms(p.unit, text, dk.1).Some? then Some(dk.0) else None
  }

  /** Where `re.search` finds its match: the leftmost position at or after
      `from` at which a match of `p` starts. */
  function Leftmost(p: Pattern, text: string, from: nat): (r: Option<nat>)
    requires from <= |text|
    ensures r.Some? ==> from <= r.value <= |text| && MatchAt(p, text, r.value).Some?
    ensures r.Some? ==> forall i :: from <= i < r.value ==> MatchAt(p, text, i).None?
    ensures r.None? ==> forall i :: from <= i <= |text| ==> MatchAt(p, text, i).None?
    decreases |text| - from
  {
    if MatchAt(p, text, from).Some? then Some(from)
    else if from == |text| then None
    else Leftmost(p, text, from + 1)
  }

  /** `re.search(...).group(1)`: the number captured by the leftmost match. */
  function Search(p: Pattern, text: string): (r: Option<Decimal>)
    ensures r.Some? ==> WellFormedDecimal(r.value)
    ensures r.None? <==> forall i :: 0 <= i <= |text| ==> MatchAt(p, text, i).None?
    ensures r.Some? ==> exists i :: 0 <= i <= |text| && MatchAt(p, text, i) == r
                                    && forall j :: 0 <= j < i ==> MatchAt(p, text, j).None?
  {
    match Leftmost(p, text, 0)
    case None => None
    case Some(i) => MatchAt(p, text, i)
  }

  /** `read_measurement_info`: `None` stands for a missing file. */
  function ReadMeasurementInfo(file: Option<string>): (r: MeasurementInfo)
    ensures file.None? ==> r == MeasurementInfo(1000000.0, 5.0)
    ensures file.Some? ==> r.testTimeUs == FieldOr(TimePattern, file.value, DefaultTestTimeUs)
    ensures file.Some? ==> r.windowNs == FieldOr(WindowPattern, file.value, DefaultWindowNs)
    ensures r.testTimeUs >= 0.0 && r.windowNs >= 0.0
  {
    match file
    case None => MeasurementInfo(DefaultTestTimeUs, DefaultWindowNs)
    case Some(text) =>
      MeasurementInfo(FieldOr(TimePattern, text, DefaultTestTimeUs),
                      FieldOr(WindowPattern, text, DefaultWindowNs))
  }

  /** The value of the leftmost match of `p` in `text`, or `default`. */
  function FieldOr(p: Pattern, text: string, default: real): (r: real)
    ensures default >= 0.0 ==> r >= 0.0
  {
    match Search(p, text)
    case None => default
    case Some(d) => Value(d)
  }

  // ---------------------------------------------------------------------
  // The scanner accepts exactly the pattern's language

  /** The literals the two patterns use: lower-case ASCII letters and ':'. */
  predicate PlainLiteral(c: char) {
    ('a' <= c <= 'z') || c == ':'
  }

  /** Every literal is plain and no `Blanks` is followed by another
      `Blanks`, so each whitespace run has a single reading. */
  predicate WellFormedAtoms(atoms: seq<Atom>)
    decreases |atoms|
  {
    || atoms == []
    || (&& (match atoms[0]
            case Lit(c) => PlainLiteral(c)
            case Blanks => |atoms| == 1 || atoms[1].Lit?)
        && WellFormedAtoms(atoms[1..]))
  }

  /** A word of lower-case ASCII letters. */
  predicate Letters(w: string) {
    forall i :: 0 <= i < |w| ==> 'a' <= w[i] <= 'z'
  }

  lemma {:induction false} WordThenWellFormed(w: string, rest: seq<Atom>)
    requires Letters(w)
    requires WellFormedAtoms(rest)
    ensures WellFormedAtoms(Word(w) + rest)
    decreases |w|
  {
    if |w| > 0 {
      assert Letters(w[1..]) by {
        forall i | 0 <= i < |w[1..]| ensures 'a' <= w[1..][i] <= 'z' {
          assert w[1..][i] == w[i + 1];
        }
      }
      WordThenWellFormed(w[1..], rest);
      var a := Word(w) + rest;
      assert Word(w) == [Lit(w[0])] + Word(w[1..]);
      assert a[0] == Lit(w[0]) && PlainLiteral(w[0]);
      assert a[1..] == Word(w[1..]) + rest;
    } else {
      assert Word(w) + rest == rest;
    }
  }

  lemma BlanksThenWellFormed(rest: seq<Atom>)
    requires WellFormedAtoms(rest)
    requires rest == [] || rest[0].Lit?
    ensures WellFormedAtoms([Blanks] + rest)
  {
    assert ([Blanks] + rest)[1..] == rest;
  }

  lemma FoldedCharIsNotBlankOrNumeric(c: char, lit: char)
    requires PlainLiteral(lit)
    requires FoldsTo(c, lit)
    ensures !IsSpace(c) && !IsDigit(c) && c != '.'
  {
  }

  /** Once a run of some kind is followed by a character not of that kind,
      the run's end is determined. */
  lemma {:induction false} SkipBlanksStops(text: string, i: nat, j: nat)
    requires i <= j <= |text|
    requires AllBlank(text, i, j)
    requires j == |text| || !IsSpace(text[j])
    ensures SkipBlanks(text, i) == j
  {
  }

  lemma {:induction false} SkipDigitsStops(text: string, i: nat, j: nat)
    requires i <= j <= |text|
    requires AllDigits(text[i..j])
    requires j == |text| || !IsDigit(text[j])
    ensures SkipDigits(text, i) == j
  {
    var k := SkipDigits(text, i);
    forall m | i <= m < j
      ensures IsDigit(text[m])
    {
      assert text[i..j][m - i] == text[m];
    }
    forall m | i <= m < k
      ensures IsDigit(text[m])
    {
      assert text[i..k][m - i] == text[m];
    }
  }

  lemma {:induction false} MatchAtomsSound(atoms: seq<Atom>, text: string, i: nat)
    requires i <= |text|
    requires MatchAtoms(atoms, text, i).Some?
    ensures Spans(atoms, text, i, MatchAtoms(atoms, text, i).value)
    decreases |atoms|
  {
    if atoms != [] {
      match atoms[0]
      case Lit(c) =>
        MatchAtomsSound(atoms[1..], text, i + 1);
      case Blanks =>
        var j := SkipBlanks(text, i);
        MatchAtomsSound(atoms[1..], text, j);
    }
  }

  lemma {:induction false} MatchAtomsComplete(atoms: seq<Atom>, text: string, i: nat, e: nat)
    requires WellFormedAtoms(atoms)
    requires Spans(atoms, text, i, e)
    requires atoms != [] && atoms[|atoms| - 1].Blanks? ==> e == |text| || !IsSpace(text[e])
    ensures MatchAtoms(atoms, text, i) == Some(e)
    decreases |atoms|
  {
    if atoms != [] {
      match atoms[0]
      case Lit(c) =>
        MatchAtomsComplete(atoms[1..], text, i + 1, e);
      case Blanks =>
        var j :| i <= j <= e && AllBlank(text, i, j) && Spans(atoms[1..], text, j, e);
        if |atoms| > 1 {
          assert atoms[1..][0] == atoms[1];
          FoldedCharIsNotBlankOrNumeric(text[j], atoms[1].c);
        }
        SkipBlanksStops(text, i, j);
        MatchAtomsComplete(atoms[1..], text, j, e);
    }
  }

  lemma ScanDecimalComplete(text: string, j: nat, k: nat, d: Decimal)
    requires DecimalAt(text, j, k, d)
    requires k == |text| || (!IsDigit(text[k]) && text[k] != '.')
    ensures ScanDecimal(text, j) == Some((d, k))
  {
    var w := j + |d.whole|;
    assert text[j..w] == d.whole by {
      assert text[j..w] == text[j..k][..|d.whole|];
    }
    match d.fraction
    case None =>
      SkipDigitsStops(text, j, k);
    case Some(f) =>
      assert text[w] == '.' by {
        assert text[w] == text[j..k][|d.whole|];
      }
      assert text[w + 1..k] == f by {
        assert text[w + 1..k] == text[j..k][|d.whole| + 1..];
      }
      SkipDigitsStops(text, j, w);
      SkipDigitsStops(text, w + 1, k);
  }

  /** The shape both info-file patterns have: well-formed atoms, a key
      ending in `\s*`, and a unit `\s*` followed by letters. */
  predicate ShapedPattern(p: Pattern) {
    ShapedKey(p.key) && ShapedUnit(p.unit)
  }

  predicate ShapedKey(key: seq<Atom>) {
    WellFormedAtoms(key) && |key| > 0 && key[|key| - 1].Blanks?
  }

  predicate ShapedUnit(unit: seq<Atom>) {
    && WellFormedAtoms(unit)
    && |unit| >= 2 && unit[0].Blanks? && unit[1].Lit? && PlainLiteral(unit[1].c)
    && unit[|unit| - 1].Lit?
  }

  /** A pattern `w0 \s* w1 \s* w2 \s* : \s* NUMBER \s* unit` is shaped. */
  lemma ThreeWordPatternShaped(w0: string, w1: string, w2: string, unit: string)
    requires |w1| > 0 && |w2| > 0 && |unit| > 0
    requires Letters(w0) && Letters(w1) && Letters(w2) && Letters(unit)
    ensures ShapedPattern(Pattern(Word(w0) + ([Blanks] + (Word(w1) + ([Blanks] + (Word(w2) + [Blanks, Lit(':'), Blanks])))),
                                  [Blanks] + Word(unit)))
  {
    ThreeWordKeyShaped(w0, w1, w2);
    UnitShaped(unit);
  }

  /** The key `w0 \s* w1 \s* w2 \s* : \s*` is well formed and ends in `\s*`. */
  lemma ThreeWordKeyShaped(w0: string, w1: string, w2: string)
    requires |w1| > 0 && |w2| > 0
    requires Letters(w0) && Letters(w1) && Letters(w2)
    ensures ShapedKey(Word(w0) + ([Blanks] + (Word(w1) + ([Blanks] + (Word(w2) + [Blanks, Lit(':'), Blanks])))))
  {
    var tail := [Blanks, Lit(':'), Blanks];
    assert WellFormedAtoms(tail) by {
      assert tail[1..] == [Lit(':'), Blanks];
      assert tail[1..][1..] == [Blanks];
      assert tail[1..][1..][1..] == [];
    }
    var k2 := Word(w2) + tail;
    WordThenWellFormed(w2, tail);
    var k1 := Word(w1) + ([Blanks] + k2);
    BlanksThenWellFormed(k2);
    WordThenWellFormed(w1, [Blanks] + k2);
    BlanksThenWellFormed(k1);
    WordThenWellFormed(w0, [Blanks] + k1);
    var key := Word(w0) + ([Blanks] + k1);
    assert key[|key| - 1] == k2[|k2| - 1] == Blanks;
  }

  /** The unit `\s* unit` is well formed and starts with `\s*` then a letter. */
  lemma UnitShaped(unit: string)
    requires |unit| > 0 && Letters(unit)
    ensures ShapedUnit([Blanks] + Word(unit))
  {
    assert WellFormedAtoms(Word(unit)) by {
      WordThenWellFormed(unit, []);
      assert Word(unit) + [] == Word(unit);
    }
    BlanksThenWellFormed(Word(unit));
  }

  lemma TimePatternShaped()
    ensures ShapedPattern(TimePattern)
  {
    assert Letters("tiempo") && Letters("de") && Letters("prueba") && Letters("us");
    ThreeWordPatternShaped("tiempo", "de", "prueba", "us");
  }

  lemma WindowPatternShaped()
    ensures ShapedPattern(WindowPattern)
  {
    assert Letters("ventana") && Letters("de") && Letters("coincidencia") && Letters("ns");
    ThreeWordPatternShaped("ventana", "de", "coincidencia", "ns");
  }

  /** A unit match starts with whitespace or a letter, never with a digit or
      a point, so it cannot extend the number in front of it. */
  lemma UnitStartsAfterNumber(p: Pattern, text: string, k: int, e: int)
    requires ShapedPattern(p)
    requires Spans(p.unit, text, k, e)
    ensures k < |text| && !IsDigit(text[k]) && text[k] != '.'
  {
    var j :| k <= j <= e && AllBlank(text, k, j) && Spans(p.unit[1..], text, j, e);
    assert p.unit[1..][0] == p.unit[1];
    FoldedCharIsNotBlankOrNumeric(text[j], p.unit[1].c);
  }

  lemma MatchAtSound(p: Pattern, text: string, i: nat)
    requires i <= |text|
    requires MatchAt(p, text, i).Some?
    ensures exists e :: InLanguage(p, text, i, e, MatchAt(p, text, i).value)
  {
    var j := MatchAtoms(p.key, text, i).value;
    var dk := ScanDecimal(text, j).value;
    var e := MatchAtoms(p.unit, text, dk.1).value;
    MatchAtomsSound(p.key, text, i);
    MatchAtomsSound(p.unit, text, dk.1);
    assert InLanguage(p, text, i, e, dk.0);
  }

  lemma MatchAtComplete(p: Pattern, text: string, i: nat, e: int, d: Decimal)
    requires ShapedPattern(p)
    requires i <= |text|
    requires InLanguage(p, text, i, e, d)
    ensures MatchAt(p, text, i) == Some(d)
  {
    var j, k :| Spans(p.key, text, i, j) && DecimalAt(text, j, k, d) && Spans(p.unit, text, k, e);
    assert text[j] == Render(d)[0] by {
      assert text[j] == text[j..k][0];
    }
    MatchAtomsComplete(p.key, text, i, j);
    UnitStartsAfterNumber(p, text, k, e);
    ScanDecimalComplete(text, j, k, d);
    MatchAtomsComplete(p.unit, text, k, e);
  }

  /** The scanner finds a match starting at `i`, with capture `d`, exactly
      when some `text[i..e]` is in the pattern's language with that capture:
      the match at a given start is unique and the scanner returns it. */
  lemma MatchAtAgreesWithPattern(p: Pattern, text: string, i: nat, d: Decimal)
    requires ShapedPattern(p)
    requires i <= |text|
    ensures MatchAt(p, text, i) == Some(d) <==> exists e :: InLanguage(p, text, i, e, d)
  {
    if MatchAt(p, text, i) == Some(d) {
      MatchAtSound(p, text, i);
    }
    if e :| InLanguage(p, text, i, e, d) {
      MatchAtComplete(p, text, i, e, d);
    }
  }

  /** A field is the number captured by the leftmost match of its pattern. */
  lemma FieldTakesLeftmostMatch(p: Pattern, text: string, default: real, i: int, e: int, d: Decimal)
    requires ShapedPattern(p)
    requires InLanguage(p, text, i, e, d)
    requires forall i', e', d' :: 0 <= i' < i ==> !InLanguage(p, text, i', e', d')
    ensures FieldOr(p, text, default) == Value(d)
  {
    var j, k :| Spans(p.key, text, i, j) && DecimalAt(text, j, k, d) && Spans(p.unit, text, k, e);
    assert 0 <= i <= |text|;
    MatchAtComplete(p, text, i, e, d);
    var l := Leftmost(p, text, 0);
    assert l.Some?;
    if l.value < i {
      MatchAtSound(p, text, l.value);
      assert false;
    }
    assert l.value == i;
  }

  /** Without any match of its pattern a field keeps its own default. */
  lemma FieldFallsBack(p: Pattern, text: string, default: real)
    requires forall i, e, d :: !InLanguage(p, text, i, e, d)
    ensures FieldOr(p, text, default) == default
  {
    if Leftmost(p, text, 0).Some? {
      MatchAtSound(p, text, Leftmost(p, text, 0).value);
    }
  }

  /** The test time is the number of the leftmost test-time line. */
  lemma ReadTakesLeftmostTestTime(text: string, i: int, e: int, d: Decimal)
    requires InLanguage(TimePattern, text, i, e, d)
    requires forall i', e', d' :: 0 <= i' < i ==> !InLanguage(TimePattern, text, i', e', d')
    ensures ReadMeasurementInfo(Some(text)).testTimeUs == Value(d)
  {
    TimePatternShaped();
    FieldTakesLeftmostMatch(TimePattern, text, DefaultTestTimeUs, i, e, d);
  }

  /** The window is the number of the leftmost coincidence-window line. */
  lemma ReadTakesLeftmostWindow(text: string, i: int, e: int, d: Decimal)
    requires InLanguage(WindowPattern, text, i, e, d)
    requires forall i', e', d' :: 0 <= i' < i ==> !InLanguage(WindowPattern, text, i', e', d')
    ensures ReadMeasurementInfo(Some(text)).windowNs == Value(d)
  {
    WindowPatternShaped();
    FieldTakesLeftmostMatch(WindowPattern, text, DefaultWindowNs, i, e, d);
  }

  /** A file without a coincidence-window line keeps the 5 ns default,
      whatever it says about the test time (and vice versa). */
  lemma ReadDefaultsIndependently(text: string)
    ensures (forall i, e, d :: !InLanguage(WindowPattern, text, i, e, d))
            ==> ReadMeasurementInfo(Some(text)).windowNs == 5.0
    ensures (forall i, e, d :: !InLanguage(TimePattern, text, i, e, d))
            ==> ReadMeasurementInfo(Some(text)).testTimeUs == 1000000.0
  {
    if forall i, e, d :: !InLanguage(WindowPattern, text, i, e, d) {
      FieldFallsBack(WindowPattern, text, DefaultWindowNs);
    }
    if forall i, e, d :: !InLanguage(TimePattern, text, i, e, d) {
      FieldFallsBack(TimePattern, text, DefaultTestTimeUs);
    }
  }
}
