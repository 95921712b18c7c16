# CHIRPS rainfall attribution — verified model of the core

The CHIRPS script attributes gridded rainfall to administrative regions.
Each region has a centroid. The script finds the grid cells around that
centroid, blends their time series into one series, and summarises daily
series into per-year dry-day counts and longest dry spells. This project
models those three computations in Dafny over `real`, with
`Option<real>` standing in for NaN, and proves what they compute.

- `locator.dfy` (module `Locator`): the nearest-index locator. It keeps the
  first two entries of an argsort of `|axis[k] - q|`.
- `interpolation.dfy` (module `Interpolation`): sentinel masking,
  whole-series exclusion, inverse-distance weighting with the all-missing
  fallback, and the equal-weight variant used for states.
- `grid.dfy` (module `Grid`): one region's pass over a grid. It locates the
  cells, forms the four candidates with the script's own pairing of series
  and distances, and weights them.
- `dryspell.dfy` (module `DrySpell`): `maxConsecutive` as the script writes
  it (split on `'0'`, then the longest piece), and a recursive run-length
  definition that it provably equals.
- `yearly.dfy` (module `Yearly`): the per-year window, the dry-day count,
  the spell, and the 1981–2015 output row.
- `wrappers.dfy` (module `Wrappers`): the `Option` type.

Behaviours of the code that the model reproduces as they are:

- Ties in the locator. `np.argsort` with its default kind is not stable, so
  indices at equal distance may come out in either order.
  `Locator.IsNearestPair` accepts any such pair, and `Locator.NearestTwo`
  returns one of them.
- Whole-series exclusion. A candidate is dropped at every step if any one
  element of its series is missing (`CHIRPS/chirps.py:48`). It is not
  dropped only at the steps where it is missing.
- Crossed distances. The series of cell (lat1, lon2) is weighted by the
  distance to (lat2, lon1), and the other way round (`CHIRPS/chirps.py:31-32`,
  `:37-39`). `Grid.Surrounding` reproduces this crossing, and
  `Grid.CrossedWeights` states it.
- The fallback. When no candidate is included, the integer division
  `0 / 0` raises, and the `except` block makes the whole series missing
  (`CHIRPS/chirps.py:51-54`).
- The year window is (1 January, 31 December]. Because the comparison is
  `test > datetime(year, 1, 1)`, 1 January is never counted
  (`CHIRPS/chirps.py:275`).

## Model

| member | source | states |
|---|---|---|
| Locator.NearestTwo | CHIRPS/chirps.py:22-27 | for an axis of at least two points, returns two distinct indices; the first is at minimal distance from the query over all indices, and the second is at minimal distance over all indices except the first |
| Locator.ArgsortPrefixIsNearestPair | CHIRPS/chirps.py:22-27 | the first two entries of any argsort of the absolute differences, with ties in any order, form such a nearest pair |
| Locator.NearestPairDistancesAgree | CHIRPS/chirps.py:22-27 | any two nearest pairs for the same query have the same two distances, so tie-breaking changes which cells are picked but not how far away they are |
| Grid.Locate | CHIRPS/chirps.py:18-27 | chooses the longitude pair and the latitude pair independently, each a nearest pair on its own axis |
| Interpolation.Mask | CHIRPS/chirps.py:35-42 | keeps the series length; an element becomes missing exactly when it equals -9999; every other element is kept; no -9999 survives as a value |
| Interpolation.UnmaskMask | CHIRPS/chirps.py:35-42 | masking loses no information: writing -9999 back in place of each missing marker gives the raw series again |
| Interpolation.CompleteMaskIffNoSentinel | CHIRPS/chirps.py:35-48 | a masked series passes the whole-series test exactly when the raw series contains no -9999 |
| Interpolation.Included | CHIRPS/chirps.py:47-48 | the candidates used are exactly those whose whole series has no missing element |
| Interpolation.IncludedSingleton | CHIRPS/chirps.py:47-48 | a single candidate is kept exactly when its whole series has no missing element |
| Interpolation.IncludedAppend | CHIRPS/chirps.py:47-48 | selection distributes over concatenation, so each passing candidate is used once and in list order, as in the `zip` loop |
| Interpolation.DenPositiveIffIncluded | CHIRPS/chirps.py:45-51 | the denominator is positive exactly when at least one candidate is included; when none is, the numerator and denominator both stay zero, which is the 0/0 that raises |
| Interpolation.Idw | CHIRPS/chirps.py:44-54 | one output value per time step; all missing when no candidate is included; present at every step otherwise |
| Interpolation.InterpolateSeries | CHIRPS/chirps.py:44-54 | the script's loop: one pass that accumulates an element-wise numerator of value/distance and a denominator of 1/distance over the included candidates, then divides or falls back to all missing; it computes exactly `Idw` |
| Interpolation.IdwBounded | CHIRPS/chirps.py:47-51 | with at least one candidate included, each output value respects any lower and upper bound that every included candidate's value at that step respects |
| Interpolation.IdwWithinIncludedRange | CHIRPS/chirps.py:47-51 | with at least one candidate included, each output value lies between the minimum and the maximum of the included candidates' values at that step |
| Interpolation.IdwIgnoresIncomplete | CHIRPS/chirps.py:47-50 | a candidate with even one missing element contributes nothing at any step: weighting only the included candidates gives the same series |
| Interpolation.IdwIncreasesWithIncludedValue | CHIRPS/chirps.py:47-51 | an included candidate contributes at every step: raising its value at one step strictly raises the output at that step |
| Interpolation.EqualWeightBlend | CHIRPS/chirps.py:156-166 | the state-level blend, with no masking and every weight equal to 1/distance of the first cell, gives one value per time step |
| Interpolation.EqualWeightBlendIsMean | CHIRPS/chirps.py:156-166 | that blend equals the plain arithmetic mean of the four series at every step, with any -9999 averaged in |
| Grid.Surrounding | CHIRPS/chirps.py:35-47 | forms exactly four candidates; `Grid.CrossedWeights` states which series and which distance each one carries |
| Grid.CrossedWeights | CHIRPS/chirps.py:30-42 | candidates 1 and 4 carry their own cell's distance; candidate 2 is cell (lat1, lon2) with the distance of (lat2, lon1); candidate 3 is cell (lat2, lon1) with the distance of (lat1, lon2) |
| Grid.RegionSeries | CHIRPS/chirps.py:30-54 | a region's series has one value per time step; it is all missing when each of the four cells holds -9999 somewhere, and present at every step otherwise |
| DrySpell.SplitOn | CHIRPS/chirps.py:194 | `str.split` with a one-character separator: at least one piece, and no piece contains the separator |
| DrySpell.JoinSplitOn | CHIRPS/chirps.py:194 | joining the pieces with the separator gives the original string back |
| DrySpell.MaxLen | CHIRPS/chirps.py:194 | `max(map(len, pieces))`: no piece is longer, and some piece has exactly that length |
| DrySpell.SplitTracksRuns | CHIRPS/chirps.py:194 | after splitting any string on `'0'`, the last piece is as long as the trailing run of characters other than `'0'`, and the longest piece is as long as the longest such run |
| DrySpell.MaxConsecutive | CHIRPS/chirps.py:188-194 | for any string, the length of the longest piece between `'0'`s equals the length of the longest run of consecutive characters other than `'0'` |
| DrySpell.MaxConsecutiveIsLongestRun | CHIRPS/chirps.py:188-194 | on the 0/1 string built from dry flags, `maxConsecutive` equals the recursive longest-run length |
| DrySpell.LongestRunBounds | CHIRPS/chirps.py:188-194 | the longest run is at most the number of `'1'`, which is at most the string length |
| DrySpell.RunBounded | CHIRPS/chirps.py:188-194 | every block of consecutive dry flags is at most as long as the longest run |
| DrySpell.LongestRunAttained | CHIRPS/chirps.py:188-194 | some block of consecutive dry flags has exactly the longest run's length, so the result is the maximum over all blocks |
| DrySpell.NoDryDayNoSpell | CHIRPS/chirps.py:188-194 | the longest run is 0 exactly when there is no dry flag, which includes the empty string |
| DrySpell.Encode | CHIRPS/chirps.py:278 | the flag string has one character per record: `'1'` for dry and `'0'` for not dry |
| Yearly.Window | CHIRPS/chirps.py:275 | keeps exactly the records dated after 1 January and on or before 31 December of the year, and no more records than the input has |
| Yearly.WindowSingleton | CHIRPS/chirps.py:275 | a single record is kept exactly when its date is in the year's window |
| Yearly.WindowAppend | CHIRPS/chirps.py:275 | the window distributes over concatenation, so every in-window record is kept once and in its original order, as the boolean-mask selection does |
| Yearly.WindowExcludesJanuaryFirst | CHIRPS/chirps.py:275 | a record dated 1 January of the year is never in that year's window; one dated 31 December always is |
| Yearly.DryFlags | CHIRPS/chirps.py:277-278 | one flag per record, true exactly when the value is present and below 0.1; a missing value is not dry |
| Yearly.CountTrueIsDryRecords | CHIRPS/chirps.py:277 | the sum of the dry flags is the number of dry records |
| Yearly.StatsForYear | CHIRPS/chirps.py:274-278 | one iteration of the year loop: the entry carries its year, the number of dry records in that year's window as the count, and the longest run of consecutive dry records there as the spell |
| Yearly.StatsForYearMeaning | CHIRPS/chirps.py:274-278 | a year's count is the number of dry records in its window; its spell is the longest run of consecutive dry records there; spell ≤ count ≤ window size, so an empty window gives 0 and 0 |
| Yearly.AggregateYears | CHIRPS/chirps.py:274-278 | the output row has 35 entries, for the years 1981 through 2015 in order; in entry i, the count is the number of dry records in the window of year 1981 + i and the spell is the longest run of consecutive dry records there; spell ≤ count ≤ window size |

## Left out

- Reading netCDF files and CSV tables, building DataFrames, naming columns and writing CSV files. These are I/O and table plumbing. A region's centroid, the grid and the daily records are plain inputs.
- Square roots. Dafny's `real` has no `sqrt`, so the four distances are inputs. `Grid.ProgramDistances` ties each one to its squared Euclidean distance (`d > 0` and `d * d` equal to the squared distance).
- A centroid that lies exactly on a grid point, where a distance is zero. The script divides only by the distances of included candidates (`CHIRPS/chirps.py:49-50`). A zero distance therefore matters only for an included candidate, where numpy divides by zero, warns, and produces inf/NaN, which is IEEE-754 behaviour. The model nevertheless requires all four distances to be positive, excluded candidates too. That case is lost only when a region sits exactly on the grid point of an excluded cell.
- IEEE-754 floating point in general: rounding, float32 storage, and NaN/inf propagation. Values are exact reals, and the only NaN is the missing marker.
- Locator.NearestTwo: requires an axis of at least two points. With fewer, the script aborts with an IndexError at `CHIRPS/chirps.py:23-24` or `:26-27` (an empty axis fails at the first index, a one-point axis at the second), outside any `try`, so there is no result to model.
- Interpolation.EqualWeightBlend: its series are plain reals, so a NaN already present in the state-level data is not modelled. Any -9999 is averaged in as a number, as in the script.
- Interpolation.Idw: only the exception the script can actually hit is modelled, the integer `0 / 0` when no candidate is included. A shape mismatch cannot occur, because the four series are slices of one array. `WellFormed` therefore requires equal lengths.
- Parsing date strings into dates. Records carry an already-parsed (year, month, day) triple, compared lexicographically, which matches `datetime` order on valid dates.
- The bare names `goopy` and the undefined `output` that stop the script. They are crashes, not logic.
- The commented-out daily extraction, the hard-coded file lists, and the column-name ranges.
- The monthly block is a line-for-line copy of the annual block, and the state-level daily block is a copy of the municipal one. Each is modelled once.
