# Quantile delta mapping downscaling of daily precipitation

A Dafny model of the core of `CMIP5_precipitation_downscaling_EQM_for_archiving.py`. The script
bias-corrects daily precipitation from a global climate model against a 39-year gridded
reference run (bias-corrected WRF), grid cell by grid cell. It uses multiplicative quantile
delta mapping (QDM, Cannon et al. 2014). The model covers five pieces:

- **Interpolation** (`interpolation.dfy`): the `interp1d(kind='linear', bounds_error=False)`
  maps f2o and f2c. The value is read off the segment bracketing the argument, the last knot
  gives the last value, and outside the knot range the result is missing (NaN becomes `None`).
  At tied knots the segment is chosen as `np.interp` chooses it (the last knot at or below the
  argument), which is the path `interp1d(kind='linear')` takes on float64 data in scipy 1.x.
  The older `searchsorted` path, which takes the first tied knot, is not modelled.
- **Qdm** (`qdm.dfy`): the corrector `non_parametric_BC_QDM_rolling_parallel`.
  - The probability grid `arange(-0.0005, 1.001, 0.001)` has 1002 levels, from just below 0
    to just above 1.
  - The quantile estimator (`mquantiles`) is a parameter. All the corrector needs of it is
    one monotone estimate per level.
  - The formula `x * f2o(x) / f2c(x)` is applied to every value on its own.
- **Conditioning** (`conditioning.dfy`): the zero-inflation `where(v > 0.05, v, uniform(0.01, 0.05))`
  and the final floor `where(v > 0.05, v, 0)`.
- **TimeSeries** and **Scheduler** (`timeseries.dfy`, `scheduler.dfy`): `correct_full_timeseries_parallel`.
  - Records carry year, month and value. A row selection (`loc` slice or month mask) is an
    increasing list of indices, so "the same timestamp" is "the same index".
  - The scheduler copies the future series cropped to 2019–2100 into an array. For each year
    and month it corrects the month's values over the window of years Y−19 to Y+19, against
    the whole reference and historical records of that month. It then writes the values of
    year Y back in place, and finally floors.
  - `CorrectFullTimeseries` is the method with its loops and the in-place write-back. It is
    proved equal to `Expected`, the function that says every output entry holds the floored
    correction of its own window, at its own timestamp.
- **Downscaling** (`downscaling.dfy`): the script's top level for one cell.
  - It conditions the three inputs and crops the future run to 2000–2100.
  - It runs the scheduler. The random draws are inputs.

At the record boundaries the window is neither clamped nor are boundary years excluded: a
year slice simply takes whatever data exist, and the model does the same.
`Scheduler.WindowYears` shows what that means on a complete 2000–2100 record:

- the window never reaches before 2000;
- from target year 2082 on, it is cut off at 2100.

## Model

| member | source | states |
|---|---|---|
| Interpolation.UpperIndex | CMIP_downscaling/CMIP5_precipitation_downscaling_EQM_for_archiving.py:50-51 | the knot search: the number of knots at or below x, with every knot before it at or below x and every knot from it on above x |
| Interpolation.Lerp | CMIP_downscaling/CMIP5_precipitation_downscaling_EQM_for_archiving.py:50-51 | the slope formula of a segment passes through both of its end points |
| Interpolation.Interp | CMIP_downscaling/CMIP5_precipitation_downscaling_EQM_for_archiving.py:50-51 | the map is defined exactly on the knot range [qf[0], qf[last]] and missing outside it (`bounds_error=False`, NaN fill) |
| Interpolation.Segment | CMIP_downscaling/CMIP5_precipitation_downscaling_EQM_for_archiving.py:50-51 | the bracketing segment found by the search: its left knot is at or below x, its right knot above x, or x is the last knot |
| Interpolation.InterpAtKnot | CMIP_downscaling/CMIP5_precipitation_downscaling_EQM_for_archiving.py:50-51 | with distinct knots, evaluating at knot i returns value i, so f2o(qf[i]) = qo[i] and f2c(qf[i]) = qc[i] |
| Interpolation.LerpBetween | CMIP_downscaling/CMIP5_precipitation_downscaling_EQM_for_archiving.py:50-51 | a point of a rising segment lies between the segment's end values |
| Interpolation.InterpScaled | CMIP_downscaling/CMIP5_precipitation_downscaling_EQM_for_archiving.py:50-51 | scaling the value table by k scales every interpolated value by k and leaves the domain unchanged |
| Interpolation.InterpSelf | CMIP_downscaling/CMIP5_precipitation_downscaling_EQM_for_archiving.py:50-51 | interpolating a knot table against itself is the identity on the knot range |
| Interpolation.InterpBounded | CMIP_downscaling/CMIP5_precipitation_downscaling_EQM_for_archiving.py:50-51 | every interpolated value lies within bounds holding for all tabulated values (no extrapolation) |
| Interpolation.InterpPositive | CMIP_downscaling/CMIP5_precipitation_downscaling_EQM_for_archiving.py:50-51 | positive tabulated values give positive interpolated values |
| Interpolation.InterpMonotone | CMIP_downscaling/CMIP5_precipitation_downscaling_EQM_for_archiving.py:50-51 | with non-decreasing quantiles the map is monotone in x |
| Qdm.Arange | CMIP_downscaling/CMIP5_precipitation_downscaling_EQM_for_archiving.py:45 | numpy's arange: element i is start + i·step, every element is below stop, and one more step would reach stop |
| Qdm.ProbabilityGrid | CMIP_downscaling/CMIP5_precipitation_downscaling_EQM_for_archiving.py:44-45 | 1002 strictly increasing levels, level i = (2i−1)/2000 = −0.0005 + i·0.001; the first below 0, the last above 1 |
| Qdm.IsEstimator | CMIP_downscaling/CMIP5_precipitation_downscaling_EQM_for_archiving.py:46-48 | what the model assumes of `mquantiles`: one estimate per probability level, non-decreasing when the levels are |
| Qdm.Quantiles | CMIP_downscaling/CMIP5_precipitation_downscaling_EQM_for_archiving.py:45-48 | the estimates of a sample on the probability grid: 1002 values, non-decreasing, so usable as interpolation knots |
| Qdm.Ratio | CMIP_downscaling/CMIP5_precipitation_downscaling_EQM_for_archiving.py:53 | the formula is defined exactly when both interpolated values are and f2c(x) is non-zero |
| Qdm.CorrectValue | CMIP_downscaling/CMIP5_precipitation_downscaling_EQM_for_archiving.py:50-53 | a corrected value exists exactly when x is inside the future quantile range and f2c(x) ≠ 0 |
| Qdm.CorrectSample | CMIP_downscaling/CMIP5_precipitation_downscaling_EQM_for_archiving.py:53 | one result per future value; a defined result only for values inside the future quantile range |
| Qdm.Correct | CMIP_downscaling/CMIP5_precipitation_downscaling_EQM_for_archiving.py:42-54 | the corrector returns one value per future value |
| Qdm.CorrectSampleSplits | CMIP_downscaling/CMIP5_precipitation_downscaling_EQM_for_archiving.py:53 | the correction is elementwise: correcting a + b is correcting a, then b |
| Qdm.RatioSame | CMIP_downscaling/CMIP5_precipitation_downscaling_EQM_for_archiving.py:53 | equal interpolated values give back x |
| Qdm.RatioScaled | CMIP_downscaling/CMIP5_precipitation_downscaling_EQM_for_archiving.py:53 | f2o(x) = k·f2c(x) gives k·x |
| Qdm.RatioOverSelf | CMIP_downscaling/CMIP5_precipitation_downscaling_EQM_for_archiving.py:53 | f2c(x) = x ≠ 0 gives f2o(x) |
| Qdm.RatioPositive | CMIP_downscaling/CMIP5_precipitation_downscaling_EQM_for_archiving.py:53 | positive x, f2o(x) and f2c(x) give a defined, positive value |
| Qdm.CorrectIdentity | CMIP_downscaling/CMIP5_precipitation_downscaling_EQM_for_archiving.py:46-53 | qo = qc: every defined corrected value is x itself |
| Qdm.CorrectScaled | CMIP_downscaling/CMIP5_precipitation_downscaling_EQM_for_archiving.py:46-53 | qo = k·qc: every defined corrected value is k·x (the multiplicative correction is scale equivariant) |
| Qdm.CorrectWithoutChange | CMIP_downscaling/CMIP5_precipitation_downscaling_EQM_for_archiving.py:46-53 | qf = qc: QDM reduces to plain quantile mapping f2o(x) |
| Qdm.CorrectPositive | CMIP_downscaling/CMIP5_precipitation_downscaling_EQM_for_archiving.py:46-53 | positive reference and historical quantiles: every positive x in range gets a defined positive correction, so the denominator never vanishes |
| Qdm.CorrectSameClimatology | CMIP_downscaling/CMIP5_precipitation_downscaling_EQM_for_archiving.py:42-54 | the same reference and historical sample: every defined output equals its future value |
| Conditioning.ValidDraws | CMIP_downscaling/CMIP5_precipitation_downscaling_EQM_for_archiving.py:88 | `np.random.uniform(low=0.01, high=0.05, size=shape)`: one draw per value, each in [0.01, 0.05) |
| Conditioning.Condition | CMIP_downscaling/CMIP5_precipitation_downscaling_EQM_for_archiving.py:88 | no conditioned value is 0; values above 0.05 are kept; each other value becomes the draw at its own position, which lies in [0.01, 0.05); above 0.05 after exactly when above before |
| Conditioning.FloorNearZero | CMIP_downscaling/CMIP5_precipitation_downscaling_EQM_for_archiving.py:77 | the result is 0 or above 0.05; above 0.05 exactly when the input is defined and above 0.05, and then unchanged; a missing value becomes 0 |
| Conditioning.FloorIdempotent | CMIP_downscaling/CMIP5_precipitation_downscaling_EQM_for_archiving.py:77 | flooring twice is flooring once |
| Conditioning.FloorUndoesCondition | CMIP_downscaling/CMIP5_precipitation_downscaling_EQM_for_archiving.py:77 | flooring a conditioned value equals flooring the raw value: the floor removes exactly the injected noise |
| TimeSeries.Matches | CMIP_downscaling/CMIP5_precipitation_downscaling_EQM_for_archiving.py:67-69 | the row filters of the script: a year slice (lines 57, 65, 123), a calendar-month mask (67–69), a year mask and a year-and-month mask (73) |
| TimeSeries.MatchesYearMonth | CMIP_downscaling/CMIP5_precipitation_downscaling_EQM_for_archiving.py:73 | the year-and-month mask of the write-back is the conjunction of the year mask and the month mask |
| TimeSeries.All | CMIP_downscaling/CMIP5_precipitation_downscaling_EQM_for_archiving.py:57 | the whole series: every index once, in order |
| TimeSeries.Positions | CMIP_downscaling/CMIP5_precipitation_downscaling_EQM_for_archiving.py:73 | a boolean mask as increasing positions: every position listed matches and every matching position is listed |
| TimeSeries.Select | CMIP_downscaling/CMIP5_precipitation_downscaling_EQM_for_archiving.py:67-69 | a row selection holds exactly the matching rows of its input, in order |
| TimeSeries.PickedMatches | CMIP_downscaling/CMIP5_precipitation_downscaling_EQM_for_archiving.py:67-69 | the rows picked at the mask's positions are increasing, match, and miss no matching row |
| TimeSeries.Filter | CMIP_downscaling/CMIP5_precipitation_downscaling_EQM_for_archiving.py:67-69 | an independent reference selection on records: the matching records of a series, in order, each matching |
| TimeSeries.FilterIndices | CMIP_downscaling/CMIP5_precipitation_downscaling_EQM_for_archiving.py:67-69 | the indices of the matching records, increasing, holding exactly the matching indices |
| TimeSeries.SubOfFilterIndices | CMIP_downscaling/CMIP5_precipitation_downscaling_EQM_for_archiving.py:67-69 | reading the filtered indices off the series gives the filtered records |
| TimeSeries.SelectIsFilter | CMIP_downscaling/CMIP5_precipitation_downscaling_EQM_for_archiving.py:67-69 | a selection from the whole series, read off as records, is exactly the matching records of the series, in order |
| TimeSeries.IndexOfIncreasing | CMIP_downscaling/CMIP5_precipitation_downscaling_EQM_for_archiving.py:71 | in a time axis without repeats every timestamp sits at one position only |
| TimeSeries.EnumerationUnique | CMIP_downscaling/CMIP5_precipitation_downscaling_EQM_for_archiving.py:73 | two increasing index lists with the same members are equal, so a positional write-back lines up timestamps |
| Scheduler.Cropped | CMIP_downscaling/CMIP5_precipitation_downscaling_EQM_for_archiving.py:57 | the output axis holds exactly the future entries dated 2019–2100, in order |
| Scheduler.Roll | CMIP_downscaling/CMIP5_precipitation_downscaling_EQM_for_archiving.py:65 | the rolling window holds exactly the future entries dated year−19 to year+19 |
| Scheduler.Window | CMIP_downscaling/CMIP5_precipitation_downscaling_EQM_for_archiving.py:65-69 | the future sample holds exactly the window's entries of the current calendar month |
| Scheduler.MonthSample | CMIP_downscaling/CMIP5_precipitation_downscaling_EQM_for_archiving.py:67-68 | the reference or historical sample of a month: the values of exactly the month-m records of the whole record, in order; it does not depend on the target year |
| Scheduler.WindowCorrected | CMIP_downscaling/CMIP5_precipitation_downscaling_EQM_for_archiving.py:67-70 | one corrected value per entry of the window's month sample; the reference and historical samples are that month over their whole record |
| Scheduler.CorrectedEntry | CMIP_downscaling/CMIP5_precipitation_downscaling_EQM_for_archiving.py:67-73 | the value delivered to future entry i: the QDM correction of i's own value with the quantiles of the reference and historical samples of i's month and of the window of i's year and month |
| Scheduler.Expected | CMIP_downscaling/CMIP5_precipitation_downscaling_EQM_for_archiving.py:56-78 | one output entry per cropped future entry, on the same date, in 2019–2100, each 0 or above 0.05 |
| Scheduler.Progress | CMIP_downscaling/CMIP5_precipitation_downscaling_EQM_for_archiving.py:57-73 | the state of the working copy before iteration (year, month): the entries dated earlier hold their own correction, every other entry still its future value |
| Scheduler.AlignedWriteBack | CMIP_downscaling/CMIP5_precipitation_downscaling_EQM_for_archiving.py:70-73 | the assignment is positional, and the k-th target of (year, month) and the k-th source of that year are the same future timestamp |
| Scheduler.MonthStep | CMIP_downscaling/CMIP5_precipitation_downscaling_EQM_for_archiving.py:73 | one write-back moves the working copy from the state before (year, month) to the state after it |
| Scheduler.EntryAfterStep | CMIP_downscaling/CMIP5_precipitation_downscaling_EQM_for_archiving.py:73 | after (year, month), an entry dated then holds its correction; any other entry is as before |
| Scheduler.WrittenEntry | CMIP_downscaling/CMIP5_precipitation_downscaling_EQM_for_archiving.py:73 | a written entry receives the correction at its own timestamp, from the window centred on its own year |
| Scheduler.KeptEntry | CMIP_downscaling/CMIP5_precipitation_downscaling_EQM_for_archiving.py:73 | an entry not targeted keeps its value and stays consistent with the progress state |
| Scheduler.TargetDate | CMIP_downscaling/CMIP5_precipitation_downscaling_EQM_for_archiving.py:73 | every target of (year, month) is dated in that year and month |
| Scheduler.EntryOfWindow | CMIP_downscaling/CMIP5_precipitation_downscaling_EQM_for_archiving.py:73 | a window entry of the target year is corrected by that window |
| Scheduler.WriteBack | CMIP_downscaling/CMIP5_precipitation_downscaling_EQM_for_archiving.py:73 | the in-place assignment: each target gets its value and every other entry of the array is unchanged |
| Scheduler.ProgressStart | CMIP_downscaling/CMIP5_precipitation_downscaling_EQM_for_archiving.py:57 | the deep copy of the cropped future series is the state before the first iteration |
| Scheduler.ProgressNextYear | CMIP_downscaling/CMIP5_precipitation_downscaling_EQM_for_archiving.py:58-66 | after month 12 of a year, the state is the one before month 1 of the next year |
| Scheduler.ProgressFinished | CMIP_downscaling/CMIP5_precipitation_downscaling_EQM_for_archiving.py:58-73 | after the last year every entry holds its own correction |
| Scheduler.CorrectMonth | CMIP_downscaling/CMIP5_precipitation_downscaling_EQM_for_archiving.py:66-73 | one inner iteration keeps the loop invariant, moving from (year, month) to (year, month + 1) |
| Scheduler.CorrectFullTimeseries | CMIP_downscaling/CMIP5_precipitation_downscaling_EQM_for_archiving.py:56-78 | the scheduler returns Expected: each output entry is the floored correction of its own window, at its own timestamp |
| Scheduler.WrittenOnce | CMIP_downscaling/CMIP5_precipitation_downscaling_EQM_for_archiving.py:73 | an output entry is targeted in iteration (year, month) exactly when it is dated then, so it is written exactly once |
| Scheduler.WindowEnd | CMIP_downscaling/CMIP5_precipitation_downscaling_EQM_for_archiving.py:65 | the window's last year with data: year + 19, but never after 2100 |
| Scheduler.WindowYears | CMIP_downscaling/CMIP5_precipitation_downscaling_EQM_for_archiving.py:65 | on a complete 2000–2100 record the window of any month holds exactly the years year−19 to min(year+19, 2100), and year−19 ≥ 2000 |
| Scheduler.WindowYearInRange | CMIP_downscaling/CMIP5_precipitation_downscaling_EQM_for_archiving.py:65 | every year in the window lies in year−19 to year+19 and is at most 2100 |
| Scheduler.YearInWindow | CMIP_downscaling/CMIP5_precipitation_downscaling_EQM_for_archiving.py:65-69 | on a complete record every year of the window's range appears in the month's window |
| Scheduler.WindowSpan | CMIP_downscaling/CMIP5_precipitation_downscaling_EQM_for_archiving.py:58-65 | the window spans 39 years up to target year 2081 and 2100 − year + 20 years after it |
| Scheduler.SameClimatologyKeepsValues | CMIP_downscaling/CMIP5_precipitation_downscaling_EQM_for_archiving.py:56-78 | with the reference equal to the historical run, every output value is 0 or the future value at that date |
| Downscaling.ConditionSeries | CMIP_downscaling/CMIP5_precipitation_downscaling_EQM_for_archiving.py:126 | conditioning a series keeps its dates, makes every value positive, keeps the values above 0.05 and replaces each other value by the draw at its own position |
| Downscaling.DataPeriod | CMIP_downscaling/CMIP5_precipitation_downscaling_EQM_for_archiving.py:123 | the crop holds exactly the future entries dated 2000–2100 |
| Downscaling.FutureToEnd | CMIP_downscaling/CMIP5_precipitation_downscaling_EQM_for_archiving.py:123 | every record of the cropped future run is dated 2000–2100, and the crop is exactly the run's 2000–2100 records in order (equal to the reference `Filter`) |
| Downscaling.Downscaled | CMIP_downscaling/CMIP5_precipitation_downscaling_EQM_for_archiving.py:135 | every downscaled value is 0 or above 0.05 |
| Downscaling.CroppedByDates | CMIP_downscaling/CMIP5_precipitation_downscaling_EQM_for_archiving.py:57 | the 2019–2100 crop depends only on the dates, not on the values, so conditioning does not change it |
| Downscaling.CropThrough | CMIP_downscaling/CMIP5_precipitation_downscaling_EQM_for_archiving.py:123 | the 2019–2100 crop of the 2000–2100 crop, read through the first crop, is the 2019–2100 crop of the whole run |
| Downscaling.ThroughIsTarget | CMIP_downscaling/CMIP5_precipitation_downscaling_EQM_for_archiving.py:123 | an entry reached through both crops is a 2019–2100 entry of the whole run |
| Downscaling.TargetIsThrough | CMIP_downscaling/CMIP5_precipitation_downscaling_EQM_for_archiving.py:123 | every 2019–2100 entry of the whole run is reached through both crops |
| Downscaling.CropOfCrop | CMIP_downscaling/CMIP5_precipitation_downscaling_EQM_for_archiving.py:123 | the output entries are the future run's 2019–2100 records, in order |
| Downscaling.DownscaledDates | CMIP_downscaling/CMIP5_precipitation_downscaling_EQM_for_archiving.py:123-135 | one output entry per future day of 2019–2100, in order, on the same dates |
| Downscaling.NoBiasNoChange | CMIP_downscaling/CMIP5_precipitation_downscaling_EQM_for_archiving.py:135 | with the historical run equal to the reference (same draws), every output value is 0 or the future value at that date |
| Downscaling.Downscale | CMIP_downscaling/CMIP5_precipitation_downscaling_EQM_for_archiving.py:135 | the script's result for one cell: the Downscaled value, one entry per future day of 2019–2100 on the same date, each 0 or above 0.05 |

## Left out

- Logging to the progress file, `print`, timing, `sys.argv` handling, netCDF reading and writing, dimension renames and coordinate rebuilding (lines 6–40, 59–63, 74–76, 82–85, 90–106, 114–117, 121, 129–130, 137–143): I/O only.
- The unit conversion `pr * 3600 * 24` (lines 108, 120) is not modelled: the model takes precipitation already in mm/day.
- Qdm.Correct: `mquantiles` is not part of this model. The estimator is a parameter, and all that is assumed of it is one estimate per level, non-decreasing when the levels are (`Qdm.IsEstimator`).
- Floating point: values are exact reals. Rounding in `arange` and in the arithmetic is not modelled.
- Qdm.Ratio: a zero f2c(x) gives a missing value, which the floor turns into 0. IEEE arithmetic would give +inf (kept by the floor), −inf (turned into 0 by the floor) or NaN (turned into 0 by the floor). In the script the case does not arise, because `mquantiles` of a sample of positive conditioned values is positive. The model does not encode this: `Qdm.IsEstimator` says nothing about the range of the estimates, and `Qdm.CorrectPositive` assumes positive quantiles.
- NaN inputs are not modelled: every input value is a number.
- Interpolation.Interp requires non-decreasing knots. `interp1d` first sorts the knots; quantile vectors are already sorted, so the sort is the identity there.
- The random draws of `np.random.uniform` come in as sequences of reals in [0.01, 0.05), one per value (`Conditioning.ValidDraws`).
- The spatial grid: `apply_ufunc(..., vectorize=True)` runs the corrector on each grid cell on its own. The model covers one cell.
- Timestamps are reduced to year and month. The time axes are assumed sorted: on a sorted axis the label slices from `'YYYY-01-01'` to `'YYYY-12-31'` (lines 57, 65, 123) select exactly the records of those years, which is how the model states them. On an unsorted axis xarray would raise an error or slice a positional range; the model does not capture that.
- The xarray coordinate check of the assignment at line 73 is not modelled. The model proves the positional assignment lines up timestamps (`Scheduler.AlignedWriteBack`), so the check always passes.
