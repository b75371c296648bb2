# contempo_phys_lab_ii in Dafny

A Dafny model of the computational core of a photon-statistics and
wave-particle-duality laboratory. It covers four parts:

- **The g2(0) engine** of the wave-particle-duality experiment:
  - it resolves the count columns of a session table, ignoring case and
    surrounding whitespace;
  - it computes the second-order correlation row by row, with the
    two-detector formula `NTR / (NT * NR) * (T / tau)` or the heralded
    three-detector formula `NGTR * NG / (NGT * NGR)`;
  - it drops the rows where the formula is undefined;
  - it summarises the rest as mean, sample standard deviation and standard
    error, next to the same statistics of any g2 column the acquisition
    software wrote itself.
- **The measurement-info reader.** Two case-insensitive patterns pull the
  test time (µs) and the coincidence window (ns) out of a free-text file.
  Each field falls back to its own default: 1 000 000 µs and 5 ns.
- **The photon-count PMF of the photon-statistics experiment:**
  - the readable counts of a column, truncated to integers;
  - the probability `n_k / N` of each distinct value `k`, in ascending
    order;
  - the counting error bar `sqrt(n_k) / N`.

  It also models the rule that picks a rows × columns layout for several
  such plots.
- **The exposure-time rule of three.** A reference exposure of 0.5 s that
  showed `e_v` photons on average is scaled to the time needed for `n`
  photons, reported in seconds, milliseconds, microseconds or nanoseconds.

Python's conventions are modelled explicitly:

- A cell that may be empty or NaN is an `Option<real>`, which is `None` for those cells.
- A raised exception is a `Result` failure whose error datatype names the
  exception's cause.
- Dafny has no real square root, so a standard deviation or error bar is
  carried as its square (`Stats.Root`). Every statement about it is a
  statement about that square.

Modules:

- `Wrappers`: `Option` and `Result`.
- `RealFacts`: arithmetic helper lemmas.
- `Text`: Python string helpers.
- `Stats`: sample moments and dropping undefined readings.
- `IoUtils`: the measurement info and its reader.
- `G2`: the correlation engine.
- `Plotting`: the PMF and the grid layout.
- `PathsAndConstants`: the exposure time.

## Model

| member | source | states |
|---|---|---|
| `G2.ResolveColumn` | p_02_Wave_Particle_Duality/g2.py:32-40 | A column is found exactly when some name equals the requested one after stripping and lower-casing. The one found is the first such column. Otherwise the error names the request and lists every available column. |
| `G2.ResolveColumnIgnoresSpelling` | p_02_Wave_Particle_Duality/g2.py:36-38 | Two requests that differ only in case or surrounding whitespace resolve to the same column, or both fail. |
| `G2.MaybeG2Column` | p_02_Wave_Particle_Duality/g2.py:43-59 | There is no g2 column exactly when no normalised name contains "g2". Otherwise the result is the first candidate reading "g2(0)" or "g2(0.0)" once blanks are removed. When no candidate reads that way, it is the first candidate. |
| `G2.FileReadings` | p_02_Wave_Particle_Duality/g2.py:82-83 | The file's own g2 readings are absent exactly when no column is a g2 candidate. When present, they are the cells of the column `MaybeG2Column` picks, one per row. |
| `G2.UnitFactor` | p_02_Wave_Particle_Duality/g2.py:75-78 | The factor T / tau, with tau converted from ns to µs, exists exactly when the window is positive. It satisfies factor × window = T × 1000. |
| `G2.DefaultUnitFactor` | p_02_Wave_Particle_Duality/config.py:26-27 | With the default metadata, the 2D factor is 2 × 10^8. |
| `G2.UnitFactorScaleInvariant` | p_02_Wave_Particle_Duality/g2.py:77-78 | Scaling T and tau by the same positive amount leaves the factor unchanged, including whether it exists. |
| `G2.CoincidenceRatio2D` | p_02_Wave_Particle_Duality/g2.py:71-80 | A 2D g2 exists exactly when all inputs are numbers, NT·NR > 0 and the factor exists. It satisfies g2 · NT · NR = NTR · factor. |
| `G2.Rows2D` | p_02_Wave_Particle_Duality/g2.py:71-73 | The 2D formula is applied to every row: one value per row, each from that row's three counts. |
| `G2.Rows3D` | p_02_Wave_Particle_Duality/g2.py:97-99 | The 3D formula is applied to every row: one value per row, each from that row's four counts. |
| `G2.CoincidenceRatio3D` | p_02_Wave_Particle_Duality/g2.py:97-99 | A 3D g2 exists exactly when all inputs are numbers and NGT·NGR > 0. It satisfies g2 · NGT · NGR = NGTR · NG. |
| `G2.DetectorSymmetry` | p_02_Wave_Particle_Duality/g2.py:71-99 | Swapping the two detectors leaves g2 unchanged in both modes. |
| `G2.UncorrelatedCountsGiveOne2D` | p_02_Wave_Particle_Duality/g2.py:62-80 | When the coincidences are exactly what chance predicts (NTR · T = NT · NR · tau), the 2D g2 is 1. |
| `G2.UncorrelatedCountsGiveOne3D` | p_02_Wave_Particle_Duality/g2.py:87-99 | When the heralded coincidences are exactly what chance predicts (NGTR · NG = NGT · NGR), the 3D g2 is 1. |
| `G2.Compute2D` | p_02_Wave_Particle_Duality/g2.py:62-84 | Succeeds exactly when NT, NR and NTR all resolve. A failure names the first missing column in that lookup order. On success there is one g2 per row, computed from that row's resolved cells, and the file readings are carried along. |
| `G2.Compute3D` | p_02_Wave_Particle_Duality/g2.py:87-103 | The same for NG, NGT, NGR and NGTR, in that lookup order. |
| `G2.Readout` | p_02_Wave_Particle_Duality/g2.py:107-112 | "2D" and "3D" dispatch to their formulas. Any other mode fails with an unknown-mode error. |
| `G2.FileMoments` | p_02_Wave_Particle_Duality/g2.py:122-131 | The file statistics are absent exactly when there is no g2 column or it holds no number. Otherwise they are the moments of its defined readings. |
| `G2.Summarize` | p_02_Wave_Particle_Duality/g2.py:106-145 | Errors of the column lookup and of the mode propagate. A session with no defined g2 is rejected with no-valid-data. A summary is returned exactly when the mode and its columns resolve and some row's g2 is defined. A success reports the moments of the defined g2 values and of the file column, the row count, and the metadata unchanged. |
| `G2.NoValidDataExactlyWhenNothingDefined` | p_02_Wave_Particle_Duality/g2.py:114-116 | When the mode and its columns resolve, the session is rejected for lack of data exactly when every row's g2 is undefined. |
| `G2.RowsDefined2D` | p_02_Wave_Particle_Duality/g2.py:71-80 | A 2D row gets a g2 exactly when the window is positive and the row is usable: all three counts are numbers and NT·NR > 0. |
| `G2.NoValidData2D` | p_02_Wave_Particle_Duality/g2.py:62-116 | A 2D session is rejected for lack of data exactly when the window is not positive or no row is usable. |
| `G2.SummaryMeanWithinRange` | p_02_Wave_Particle_Duality/g2.py:114-118 | The reported mean lies between any lower and upper bound of the defined per-row g2 values. |
| `G2.ThreeDIgnoresMeasurementInfo` | p_02_Wave_Particle_Duality/g2.py:87-103 | In 3D, success and every statistic are the same whatever the test time and window. |
| `G2.FileStatisticsDependOnTableOnly` | p_02_Wave_Particle_Duality/g2.py:122-131 | The file's g2 statistics are the same in every mode and for any metadata. |
| `Stats.Defined` | p_02_Wave_Particle_Duality/g2.py:114 | Keeps exactly the defined readings, so a value is kept iff it occurs. The result is empty exactly when no reading is defined. |
| `Stats.Variance` | p_02_Wave_Particle_Duality/g2.py:119 | The variance is never negative. It is 0 below two readings. Otherwise variance × (N − 1) is the sum of squared deviations from the mean. |
| `Stats.Describe` | p_02_Wave_Particle_Duality/g2.py:118-120 | mean × N equals the sum. For N ≥ 2, std² × (N − 1) is the sum of squared deviations from the mean. Below two readings, std and SEM are exactly 0. In all cases SEM² × N = std². |
| `Stats.MeanBetweenBounds` | p_02_Wave_Particle_Duality/g2.py:118 | The mean lies between any bounds of the readings. |
| `Stats.VarianceShortcut` | p_02_Wave_Particle_Duality/g2.py:119 | The Bessel-corrected variance also satisfies (N − 1)·std² = Σx² − N·mean². |
| `Stats.ConstantSeries` | p_02_Wave_Particle_Duality/g2.py:118-120 | A constant series has that constant as its mean, and zero std and SEM. |
| `Stats.DefinedMeanBetweenBounds` | p_02_Wave_Particle_Duality/g2.py:114-118 | After undefined readings are dropped, the mean lies between any bounds of the defined readings. |
| `Stats.DefinedConcat` | p_02_Wave_Particle_Duality/g2.py:114 | Dropping undefined readings distributes over concatenation. |
| `Text.RemoveBlanks` | p_02_Wave_Particle_Duality/g2.py:57 | Only the ASCII blank is removed. Every other character survives as often as it occurs: the multiset of the result is that of the input with the blanks taken out. |
| `Text.RemoveBlanksConcat` | p_02_Wave_Particle_Duality/g2.py:57 | Removing blanks works piece by piece over concatenation. With `Text.RemoveBlanksSingle` (a blank vanishes, any other character stays), this fixes the order of the surviving characters. |
| `IoUtils.ReadMeasurementInfo` | p_02_Wave_Particle_Duality/io_utils.py:21-38 | A missing file gives 1 000 000 µs and 5 ns. Otherwise each field is read from its own pattern with its own default. Both fields are never negative. |
| `IoUtils.FieldOr` | p_02_Wave_Particle_Duality/io_utils.py:35-36 | A field read with a non-negative default is non-negative. |
| `IoUtils.Leftmost` | p_02_Wave_Particle_Duality/io_utils.py:32-33 | The search position is a match start, and no earlier position starts a match. When there is no position, no position at all starts one. |
| `IoUtils.Search` | p_02_Wave_Particle_Duality/io_utils.py:32-33 | Nothing is found exactly when no position starts a match. A found number is well formed and is the capture of a match at a position before which no match starts. |
| `IoUtils.MatchAt` | p_02_Wave_Particle_Duality/io_utils.py:17-18 | A capture at a position is always a well-formed number. `IoUtils.MatchAtAgreesWithPattern` shows that it accepts exactly the pattern's language. |
| `IoUtils.Value` | p_02_Wave_Particle_Duality/io_utils.py:35-36 | The converted number is never negative. |
| `IoUtils.ValueShiftsDigits` | p_02_Wave_Particle_Duality/io_utils.py:35-36 | The converted value times ten to the number of digits after the point equals the integer that all the digits spell. So no digit is lost or invented. |
| `IoUtils.DigitsValueConcat` | p_02_Wave_Particle_Duality/io_utils.py:35-36 | Reading a digit string `a + b` gives `a`'s value shifted by `|b|` places plus `b`'s value. |
| `IoUtils.ScanDecimal` | p_02_Wave_Particle_Duality/io_utils.py:17-18 | The scanned number is text that spells a well-formed `[0-9]*\.?[0-9]+`. |
| `IoUtils.MatchAtAgreesWithPattern` | p_02_Wave_Particle_Duality/io_utils.py:17-18 | The scanner accepts a match at a position, with a given capture, exactly when the pattern's language has a match there with that capture. |
| `IoUtils.TimePattern` | p_02_Wave_Particle_Duality/io_utils.py:17 | The test-time pattern: "tiempo", "de", "prueba", a colon, the number and "us", with whitespace runs between them and case ignored. |
| `IoUtils.WindowPattern` | p_02_Wave_Particle_Duality/io_utils.py:18 | The window pattern: "ventana", "de", "coincidencia", a colon, the number and "ns", in the same form. |
| `IoUtils.TimePatternShaped` | p_02_Wave_Particle_Duality/io_utils.py:17 | The test-time pattern has the shape under which its match at a position is unique. |
| `IoUtils.WindowPatternShaped` | p_02_Wave_Particle_Duality/io_utils.py:18 | The same for the coincidence-window pattern. |
| `IoUtils.FieldTakesLeftmostMatch` | p_02_Wave_Particle_Duality/io_utils.py:32-36 | For any well-shaped pattern, the field is the value captured by the leftmost match in the text. |
| `IoUtils.FieldFallsBack` | p_02_Wave_Particle_Duality/io_utils.py:35-36 | When the pattern matches nowhere, the field keeps its default. |
| `IoUtils.ReadTakesLeftmostTestTime` | p_02_Wave_Particle_Duality/io_utils.py:32-35 | The test time is the number of the leftmost "Tiempo de Prueba : … us" occurrence, in any case. |
| `IoUtils.ReadTakesLeftmostWindow` | p_02_Wave_Particle_Duality/io_utils.py:33-36 | The window is the number of the leftmost "Ventana de Coincidencia : … ns" occurrence. |
| `IoUtils.ReadDefaultsIndependently` | p_02_Wave_Particle_Duality/config.py:25-27 | A file without a window line gets 5 ns whatever it says about the test time. A file without a test-time line gets 1 000 000 µs. |
| `Plotting.Truncate` | p_01_Photon_Statistics/helper_directory/plotting.py:62 | The integer conversion rounds toward zero. It is the floor for non-negative readings and the ceiling for negative ones. |
| `Plotting.TruncateKeepsIntegers` | p_01_Photon_Statistics/helper_directory/plotting.py:62 | Whole-number readings pass the conversion unchanged. |
| `Plotting.Observations` | p_01_Photon_Statistics/helper_directory/plotting.py:62 | There is one observation per readable cell, in column order. Each is that cell's number truncated to an integer. |
| `Plotting.Insert` | p_01_Photon_Statistics/helper_directory/plotting.py:65 | Adding an observation keeps the tally strictly ascending with positive counts. |
| `Plotting.InsertCounts` | p_01_Photon_Statistics/helper_directory/plotting.py:65 | Adding an observation raises its value's count by one and leaves every other count alone. |
| `Plotting.Tally` | p_01_Photon_Statistics/helper_directory/plotting.py:65 | The tally is strictly ascending in value, with positive counts. `Plotting.TallyCounts` and `Plotting.TallyValues` give its contents. |
| `Plotting.TallyCounts` | p_01_Photon_Statistics/helper_directory/plotting.py:65 | Each value's count equals its multiplicity among the observations. |
| `Plotting.TallyValues` | p_01_Photon_Statistics/helper_directory/plotting.py:65 | The tallied values are exactly the distinct observations. |
| `Plotting.TallyTotal` | p_01_Photon_Statistics/helper_directory/plotting.py:65-66 | The counts add up to N. |
| `Plotting.Bars` | p_01_Photon_Statistics/helper_directory/plotting.py:67-81 | Each bar keeps its entry's value and count. Its probability × N is the count, and its squared error × N² is the count. |
| `Plotting.Distribution` | p_01_Photon_Statistics/helper_directory/plotting.py:65-81 | The result is empty exactly when there are no observations. Values are strictly ascending and are exactly the distinct observations. Each count is the value's multiplicity, with p_k = n_k / N and error² = n_k / N². |
| `Plotting.Pmf` | p_01_Photon_Statistics/helper_directory/plotting.py:61-94 | The PMF is empty exactly when the column holds no readable number. Its values are strictly ascending and are exactly the distinct observations. Each count is the value's multiplicity among the observations. Every bar is scaled by the number of readable cells. |
| `Plotting.ProbabilitiesSumToOne` | p_01_Photon_Statistics/helper_directory/plotting.py:65-67 | For a non-empty sample the probabilities add up to 1. |
| `Plotting.ProbabilitiesInUnitInterval` | p_01_Photon_Statistics/helper_directory/plotting.py:67-81 | Every probability and every squared error bar lies in (0, 1]. |
| `Plotting.CeilDiv` | p_01_Photon_Statistics/helper_directory/plotting.py:117 | rows is the least number with rows × cols ≥ n. |
| `Plotting.ChoiceFor` | p_01_Photon_Statistics/helper_directory/plotting.py:116-126 | A tried layout holds all n plots in as few rows as possible. It leaves fewer empty cells than it has columns. |
| `Plotting.Replaces` | p_01_Photon_Statistics/helper_directory/plotting.py:129 | The first layout tried is always kept, and so is any strictly lower score. A replacement never raises the kept score by as much as the 1e-12 tolerance. |
| `Plotting.Scan` | p_01_Photon_Statistics/helper_directory/plotting.py:112-131 | The loop keeps a layout that some tried column count produced. It has one once any count has been tried. |
| `Plotting.BestGrid` | p_01_Photon_Statistics/helper_directory/plotting.py:98-133 | n ≤ 0 fails with exactly that error. One to three plots give one row of n. From four plots on, it fails exactly when no column count is tried (max_cols < 2). Otherwise 2 ≤ cols ≤ min(max_cols, n), all plots fit, and fewer than cols cells are empty. |
| `Plotting.BestGridNearMinimal` | p_01_Photon_Statistics/helper_directory/plotting.py:116-131 | The chosen layout's score exceeds that of any tried column count k by at most (min(max_cols, n) − k) × 1e-12. |
| `Plotting.BestGridMinimal` | p_01_Photon_Statistics/helper_directory/plotting.py:116-131 | Without near-ties among the scores, the chosen layout has the least score of all tried column counts. |
| `Plotting.BestGridOfFour` | p_01_Photon_Statistics/helper_directory/plotting.py:98-133 | Four plots with the default max_cols = 6 give a 2 × 2 grid. |
| `PathsAndConstants.PrefixScale` | p_01_Photon_Statistics/helper_directory/paths_and_constants.py:50-55 | Exactly the prefixes "nano", "micro", "mili" and "" are known, each with a positive number of seconds per unit. |
| `PathsAndConstants.RequiredTime` | p_01_Photon_Statistics/helper_directory/paths_and_constants.py:40-62 | e_v = 0 is a division by zero, reported before the prefix is looked up. An unknown prefix is the second error. Otherwise time × scale × e_v = n × 0.5 s. |
| `PathsAndConstants.LinearInCount` | p_01_Photon_Statistics/helper_directory/paths_and_constants.py:57-59 | No photons need no time, and k times the photons need k times the time. |
| `PathsAndConstants.ReferenceExposure` | p_01_Photon_Statistics/helper_directory/paths_and_constants.py:37-38 | Asking for the reference count e_v gives back 500 000 µs. |
| `PathsAndConstants.PrefixesDifferByThousand` | p_01_Photon_Statistics/helper_directory/paths_and_constants.py:50-62 | The same time reads 1000 times larger one prefix down. With no prefix it is in seconds. |
| `PathsAndConstants.MonotoneInCount` | p_01_Photon_Statistics/helper_directory/paths_and_constants.py:59 | With a positive e_v, more photons never need less time. |

## Left out

- **Floating point.** All arithmetic is exact rational arithmetic.
  - IEEE rounding, infinities and overflow are not modelled.
  - A NaN is an absent value.
  - The 1e-12 tolerance of the layout rule is kept as an exact constant.
- **Text cells in the g2 engine.** `to_numpy(dtype=float)` raises ValueError when a count column or the chosen g2 column holds text that is not a number (g2.py:67-69, 83 and 92-95). A table's cells hold only numbers and empty or NaN cells, so that error path is outside the model's input.
- **pandas and numpy mechanics.**
  - CSV reading is not modelled.
  - `pd.to_numeric(..., errors="coerce")` is not modelled: a cell is either a number or absent.
  - Duplicate column labels and non-string labels are not modelled.
  - Infinite values that `np.isfinite` would also drop are not modelled.
- **File system.** The existence check and the reading of the info file are not modelled: the file is a parameter that is `None` when missing. Decoding errors ignored by `errors="ignore"` are not modelled.
- **Unicode lower-casing.** Column names are lower-cased on ASCII letters only. The regular expressions use Python's case folding for exactly the letters in their patterns, including the extra 'i' and 's' pairs.
- **Plotting and saving.** Matplotlib drawing, error-bar rendering and figure saving are not modelled: the bars are returned as data.
- **The two `main.py` drivers and `plotting.py` of the duality experiment.** They are orchestration, file discovery and plotting around the modelled functions.
- **Empty PMF.** An empty column yields an empty PMF, as the code does. The code raises no error for it.
- **`e_v` as a numpy value.** With numpy floats a zero `e_v` gives an infinite or NaN time instead of an exception. Only the Python-float behaviour is modelled.
- **Default arguments.** Python's defaults become explicit parameters: `escala="micro"` of `tiempo_requerido` and `max_cols=6` of `best_grid` must be passed. `Plotting.BestGridOfFour` uses 6. `error_bars=True` of `fdp_histograma` is always on: the error bars are always computed.
- **Reference exposure.** The docstring of `tiempo_requerido` speaks of 500E-6 s. The code uses 500000E-6 s (0.5 s), which is what the model uses.
- Plotting.BestGridNearMinimal: this is weaker than exact minimality. A replacement on a near-tie (within 1e-12) may keep a score up to the tolerance above the best one, so exact minimality holds only under `NoNearTies` (`Plotting.BestGridMinimal`).
- Plotting.Replaces: the near-tie replacement test is modelled as written. It compares (empty, rows) with the kept (rows, cols) pair, not the kept (empty, rows), so it matters only when two scores fall within 1e-12 of each other.
