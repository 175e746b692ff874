# OceanExtremeEvents core, modelled in Dafny

This project models the two analysis engines of OceanExtremeEvents and proves properties of them.

**Marine-heatwave engine** (`heatwave_functions_G.py`):

- `clim_calcs` builds a 365-day climatology from the first `num_yearsCLIM` years of an SST field. For each grid cell and day of the year it stores a percentile threshold and a mean.
- `mhw_metrics` tiles that climatology over the analysis period. For each grid cell it:
  - detects the days on which the SST strictly exceeds the threshold;
  - keeps the maximal runs of such days that last at least five days;
  - records per-event metrics: peak, duration, intensities relative to the seasonal mean, relative to the threshold and absolute, and the severity category with per-category day counts.

**Eddy–SST joiner** (`eddyHW_suppliFunctions_G.py`):

- `eddy_census_calc` snaps every point of every tracked eddy to the SST grid with `gridcell_round` and reads the SST under it. It encodes the eddy type and computes rotational velocity, translation speed and nonlinearity. It then splits the enriched eddies into anticyclonic and cyclonic lists, with SST anomalies against the tiled climatological mean.
- `eddy_plotready` flattens one of those lists into five plain lists.

## Modules and form

- `common.dfy` (`Common`): the shared vocabulary.
  - `Option` and `Result`.
  - Python's `list.index` / `np.where(...)[0][0]` as a first-match lookup (`IndexOf`).
  - numpy indexing with negative offsets (`PyIndex`).
  - the first error of a loop (`FirstSome`).
- `stats.dfy` (`Stats`): `np.sum`, `np.mean`, `np.var` and `np.argmax` over reals, with bounds lemmas.
- `climatology.dfy` (`Climatology`): `clim_calcs`.
  - It is imperative: the `t_store` table is an `array2` filled in a loop.
  - The two tables are fresh `array3`s filled slot by slot in the source's four-deep loop.
- `event_detection.dfy` (`EventDetection`): the effect of `ndimage.label` on the exceedance mask, specified as the list of maximal runs. It is computed by a left-to-right scan, followed by the minimum-duration filter.
- `event_metrics.dfy` (`EventMetrics`): the metrics of one event, as a function of the cell's series and the event's first and last day.
- `heatwaves.dfy` (`Heatwaves`): `mhw_metrics`. The per-cell loop bodies are methods. The outer double loop appends one record per cell to a sequence.
- `eddy_census.dfy` (`EddyCensus`): `eddy_census_calc`.
  - `gridcell_round` is a pure function.
  - The per-eddy `np.zeros` arrays are sequences written index by index.
  - The first per-point loop, the second per-point loop, the enrichment loop and the split loop are each a method.
  - `rot_velocity` is carried out of the first loop into the second, as in the source.
- `eddy_plot.dfy` (`EddyPlot`): `eddy_plotready`. Its nested append loop is proved equal to a flattening function.

Python exceptions are `Failure` values carrying the exception's cause:
- `IndexError` in `clim_calcs`, from `len(field[0,:,0])` on an empty time or longitude axis (`Climatology.ClimError.EmptyAxis`) or from a sampled timestep beyond the field (`Climatology.ClimError.InsufficientData`);
- the broadcasting `ValueError` of `field[:,x,y] - baseline_thresh[:,x,y]` in `mhw_metrics` when the field is not whole years long (`Heatwaves.MetricsError.ShapeMismatch`);
- `IndexError` from an SST step `time - 1` outside the field (`EddyCensus.EddyError.TimeOutOfRange`);
- `IndexError` from `baseline_mean[time]` outside the tiled mean in the split (also `TimeOutOfRange`);
- `ValueError` from `list.index` (`LonOffGrid`, `LatOffGrid`);
- `ZeroDivisionError` from `int(1 / spat_res)` or `gridcell_round` (`ZeroDivision`);
- `IndexError` from `type[0]` of an empty track (`EmptyTrack`).

Floating-point physics enters as uninterpreted function parameters:
- the percentile (`np.nanpercentile`);
- `np.sqrt`;
- the Coriolis-based rotational velocity;
- the great-circle translation speed;
- the division `U / c`.

Integer times are `int`, all other values `real`.

Behaviours of the source that the model preserves:

- The SST of an eddy point is read at step `time - 1`, but its anomaly subtracts the tiled mean at step `time` (`EddyCensus.SplitPointOf`).
- `nonlin[x]` divides the rotational velocity of the track's last point, which is what the first loop leaves in `rot_velocity`, by the speed at `x` (`EddyCensus.SpeedFilled`).
- A time step of 0 reads `field[-1]`, the last step, as numpy does (`EddyCensus.PointError`, `Common.PyIndex`).
- A type string other than `anticyclonic` or `cyclonic` leaves the zero of `np.zeros`, so that eddy goes to the cyclonic list (`EddyCensus.TypeCode`, `EddyCensus.CensusPartition`).
- `lat`, `lon`, `lat_index` and `lon_index` of a cell record are only set inside the per-event loop, so they stay unset for a cell without events (`Heatwaves.RecordEvents`).
- `mhw_metrics` needs a field of whole years for the tiled baselines. The one exception is a field of length 1, where numpy broadcasts the empty baseline and every cell gets an empty record (`Heatwaves.CellOfField`).

## Model

| member | source | states |
|---|---|---|
| Common.IndexOf | eddyHW_suppliFunctions_G.py:97-98 | the lookup fails exactly when the value is absent; otherwise it gives the first position that holds the value |
| Common.IndexOfDistinct | heatwave_functions_G.py:175-176 | in a list without repeats, looking up element k gives back k |
| Common.PyIndex | eddyHW_suppliFunctions_G.py:109 | an index is valid exactly when -n <= i < n; a valid index selects the one position of the axis congruent to it modulo n, so a negative index counts back from the end |
| Common.FirstSomeAt | eddyHW_suppliFunctions_G.py:79-141 | the error a loop stops at is the first present error: an error preceded only by absent ones is the result |
| Stats.ArgMax | heatwave_functions_G.py:190 | `np.argmax`: in range, at least every element, and strictly above every earlier element |
| Stats.MeanAtMost | heatwave_functions_G.py:196 | the mean of a sample never exceeds an upper bound of it |
| Stats.VarianceNonNegative | heatwave_functions_G.py:197 | the population variance is never negative, so its square root is defined |
| Climatology.TimeIndexBijective | heatwave_functions_G.py:57-62 | every (day, year) pair draws a step of the baseline period (`i + 365*j < num_yearsCLIM*365`), and every baseline step is drawn by exactly one pair |
| Climatology.TimeIndexTable | heatwave_functions_G.py:53-62 | the fresh 365 x `num_yearsCLIM` table holds `i + 365*j` in every slot |
| Climatology.FillSlot | heatwave_functions_G.py:68-76 | writing slot (i, x, y) stores the percentile and the mean of that day's samples, keeps every earlier slot filled, and leaves every other slot of both tables unchanged |
| Climatology.ClimCalcs | heatwave_functions_G.py:22-78 | fails exactly when the time or longitude axis is empty, or when there is a latitude and the field is shorter than `num_yearsCLIM` years; otherwise returns fresh tables shaped like `field[0:365]` whose every slot is the percentile and the mean of that slot's samples |
| EventDetection.ExceedanceMask | heatwave_functions_G.py:156-158 | a day is marked exactly when its SST is strictly above the threshold |
| EventDetection.LabelRuns | heatwave_functions_G.py:160 | returns, in time order and without overlap, exactly the maximal runs of marked days |
| EventDetection.KeepLong | heatwave_functions_G.py:164-167 | keeps exactly the runs of at least the minimum duration |
| EventDetection.KeepLongIsEventRuns | heatwave_functions_G.py:160-169 | filtering the labelled runs gives exactly the maximal runs of at least the minimum duration, in order |
| EventDetection.EventRunsUnique | heatwave_functions_G.py:160-169 | the event list is determined by the mask: two lists meeting the event description are equal |
| EventMetrics.Normalised | heatwave_functions_G.py:182 | multiplied by the threshold's distance from the seasonal mean, the normalised value gives back the excess over the threshold; it is positive exactly on days above the threshold |
| EventMetrics.TierOfExceedance | heatwave_functions_G.py:209 | a day above its threshold, itself above the mean, is at least tier 1 |
| EventMetrics.TierMonotone | heatwave_functions_G.py:209 | a larger normalised excess never gives a lower tier |
| EventMetrics.CategoryOfIndex | heatwave_functions_G.py:173-210 | for tiers of at least 1, the category is `categories[min(tier, 4) - 1]` |
| EventMetrics.CategoryCountsPartition | heatwave_functions_G.py:211-214 | when every day is at least tier 1, the moderate, strong, severe and extreme counts add up to the number of days |
| EventMetrics.PeakDayIsFirstMax | heatwave_functions_G.py:190-191 | the peak lies inside the event, is a day of largest excess over the mean, and no earlier day reaches that excess |
| EventMetrics.EventDayCounts | heatwave_functions_G.py:209-214 | every day of an event is at least tier 1, so the four category day counts add up to the duration |
| EventMetrics.PeakCategoryDayIsHighest | heatwave_functions_G.py:208-210 | the day of largest normalised excess lies inside the event, is at least tier 1 and has the highest tier of the event |
| EventMetrics.EventPeak | heatwave_functions_G.py:190-203 | duration is end - start + 1; the peak lies inside the event; the maximum intensity is the excess on the peak day, at least every daily excess and strictly above those of earlier days; the relative-to-threshold and absolute maxima are read on the same day |
| EventMetrics.EventTotals | heatwave_functions_G.py:196-206 | the cumulative intensity is the sum of the daily excesses; the mean is cumulative / duration and at most the maximum; the absolute cumulative is the SST sum; the variance under the square root is non-negative |
| EventMetrics.EventCategory | heatwave_functions_G.py:207-214 | the category is that of the highest-tier day, and the four day counts partition the duration |
| Heatwaves.Repeat | heatwave_functions_G.py:114-120 | the tiled baseline has `num_years` times the year's length, and step d holds the year's day d mod 365 |
| Heatwaves.ModAfterWholeBlocks | heatwave_functions_G.py:116-120 | a step inside year k of the tiling sits at its offset from that year's start |
| Heatwaves.RecordRuns | heatwave_functions_G.py:174-176 | each looked-up run starts at the first position of `t` holding the recorded start time and ends at the first position holding the recorded end time |
| Heatwaves.EventTimes | heatwave_functions_G.py:162-169 | records the `t` values of the first and last day of exactly the runs of at least five days, in order |
| Heatwaves.RecordEvents | heatwave_functions_G.py:171-214 | stores the times, `n_events` equal to their count, and the metrics of each looked-up event; the coordinates are set exactly when there is an event |
| Heatwaves.CellHeatwaves | heatwave_functions_G.py:155-214 | the cell record lists exactly the maximal exceedance runs of at least five days, with their times, their count and their metrics |
| Heatwaves.TimesLookUpRuns | heatwave_functions_G.py:168-176 | with distinct times, looking the recorded times up again gives back the detected runs |
| Heatwaves.CellRecordUnique | heatwave_functions_G.py:125-214 | the record of a cell is determined by its inputs |
| Heatwaves.CellEventsLastLong | heatwave_functions_G.py:163-214 | every recorded event lasts at least five days, its peak lies inside it, and its category day counts add up to its duration |
| Heatwaves.CellIndexInjective | heatwave_functions_G.py:122-217 | distinct cells have distinct positions in the lat-major output list |
| Heatwaves.CellOfField | heatwave_functions_G.py:114-214 | fails exactly when the field is neither whole years nor of length 1; a field of length 1 gives an empty record; otherwise the result is the record of the cell's series against the tiled threshold and mean |
| Heatwaves.MhwMetrics | heatwave_functions_G.py:86-219 | fails exactly when the tiling fails on a non-empty grid; otherwise returns one record per cell in lat-then-lon order, and each record is the cell's record, including the cells with no events |
| EddyCensus.Trunc | eddyHW_suppliFunctions_G.py:62 | `int()` truncates toward zero |
| EddyCensus.ResFactor | eddyHW_suppliFunctions_G.py:62 | `int(1 / spat_res)` fails exactly for a zero resolution; for a positive resolution s the factor k is the number of whole steps of s in one degree: k*s <= 1 < (k+1)*s |
| EddyCensus.ResFactorBounds | eddyHW_suppliFunctions_G.py:62 | for a resolution of at most one degree, the factor is at least 1 |
| EddyCensus.GridcellRoundBounds | eddyHW_suppliFunctions_G.py:71-75 | with a positive factor, the snapped value r satisfies r <= x < r + 1/factor |
| EddyCensus.GridcellRoundIdempotent | eddyHW_suppliFunctions_G.py:71-75 | snapping a snapped value leaves it unchanged |
| EddyCensus.TypeCodeBinary | eddyHW_suppliFunctions_G.py:111-115 | the type entry is 0 or 1, and it is 1 exactly for an anticyclonic eddy |
| EddyCensus.LocatePoint | eddyHW_suppliFunctions_G.py:97-109 | fails exactly with the point's first error (zero factor, longitude not on the grid, latitude not on the grid, SST step out of range); otherwise returns the first grid positions equal to the snapped coordinates and the SST step `time - 1` |
| EddyCensus.SetPointFills | eddyHW_suppliFunctions_G.py:95-122 | writing one point's values fills that point and keeps all earlier points filled |
| EddyCensus.FillPoints | eddyHW_suppliFunctions_G.py:80-122 | fails exactly when some point raises, with the first point's error; otherwise every point holds its grid cell, copied values, SST at `time - 1`, type code and rotational velocity; speeds stay zero; the velocity carried out is that of the last point |
| EddyCensus.FillSpeeds | eddyHW_suppliFunctions_G.py:124-139 | changes only the speeds; point 0 and every point of an eddy younger than two days keep zero; every other point gets its translation speed and the last point's velocity over that speed |
| EddyCensus.EnrichTrack | eddyHW_suppliFunctions_G.py:80-139 | fails exactly with the track's first error; otherwise the grid is the enriched track |
| EddyCensus.EnrichedFacts | eddyHW_suppliFunctions_G.py:81-115 | an enriched eddy keeps the track's times, has one type entry per point equal to the track's code, and addresses only cells of the grid |
| EddyCensus.EnrichedInCell | eddyHW_suppliFunctions_G.py:71-98 | with a positive factor, each point lies in the grid cell its indices select, within one grid step of the cell's corner |
| EddyCensus.BaselineDay | eddyHW_suppliFunctions_G.py:146-167 | a step of the tiled mean is valid exactly inside +-`num_years*365`, and a valid step, negative ones included, selects day step mod 365 |
| EddyCensus.SetSplitPointSplits | eddyHW_suppliFunctions_G.py:164-175 | writing one point of the split record extends the split prefix |
| EddyCensus.SplitEddy | eddyHW_suppliFunctions_G.py:151-190 | fails exactly when some time lies outside the tiled mean; otherwise copies every value, converts the amplitude to cm and subtracts the mean at step `time` |
| EddyCensus.OfType | eddyHW_suppliFunctions_G.py:163-177 | the order-keeping filter keeps exactly the eddies whose first type entry is the given code |
| EddyCensus.OfTypePartition | eddyHW_suppliFunctions_G.py:150-190 | when each eddy's first type entry is 0 or 1, the two lists together take every eddy once |
| EddyCensus.AppendSplit | eddyHW_suppliFunctions_G.py:176-190 | appending a split record and its eddy keeps the list aligned with its eddies |
| EddyCensus.SplitByType | eddyHW_suppliFunctions_G.py:150-190 | fails exactly with the first eddy's split error; otherwise the anticyclonic and cyclonic lists are the split records of the type-1 and type-0 eddies, in order |
| EddyCensus.EnrichAll | eddyHW_suppliFunctions_G.py:79-141 | fails exactly with the first track's enrichment error; otherwise one enriched eddy per track |
| EddyCensus.SplitErrorAgrees | eddyHW_suppliFunctions_G.py:163-190 | the split raises for an enriched eddy exactly what the track's own points and times say |
| EddyCensus.EddyCensusCalc | eddyHW_suppliFunctions_G.py:62-192 | fails exactly when the census raises, with its first exception; otherwise the eddies are the enriched tracks, the two lists are the split records of the anticyclonic and cyclonic eddies, and every track has points |
| EddyCensus.CensusPartition | eddyHW_suppliFunctions_G.py:112-190 | the anticyclonic list takes exactly the eddies of anticyclonic tracks, the cyclonic list all others, and together they have one record per track |
| EddyPlot.FlattenLength | eddyHW_suppliFunctions_G.py:222-228 | each flattened list has one entry per point of all records |
| EddyPlot.FlattenAt | eddyHW_suppliFunctions_G.py:222-228 | point x of record ed sits at position (points of earlier records) + x |
| EddyPlot.FlattenOwner | eddyHW_suppliFunctions_G.py:222-228 | every position of a flattened list holds a point of some record, at that record's offset plus the point |
| EddyPlot.OffsetMonotone | eddyHW_suppliFunctions_G.py:222-223 | the points of earlier records come first |
| EddyPlot.SplitsPlottable | eddyHW_suppliFunctions_G.py:223-228 | the records of the census have every array as long as their time array, so the loop never reads out of range |
| EddyPlot.AppendRecord | eddyHW_suppliFunctions_G.py:223-228 | appends the five values of every point of one record, in point order |
| EddyPlot.EddyPlotready | eddyHW_suppliFunctions_G.py:200-230 | the five lists are the flattened absolute SST, SST anomaly, amplitude, radius and rotational velocity |

## Left out

- `np.nanpercentile`, its interpolation and NaN handling: the percentile is an uninterpreted function of the sample. The input is taken to be NaN-free, so a NaN that the source would mark as exceeding is not modelled.
- Floating-point arithmetic: values are reals. `np.sqrt`, the Coriolis term, the `arccos` great-circle distance and the division `U / c` are uninterpreted functions. Only which slot they are written to is verified, not the physics. That includes the degrees passed to `sin`/`cos` and the extra `radians_convert` factor.
- Climatology.ClimCalcs: requires at least one climatology year; with none, `np.nanmean` of an empty sample gives NaN, which is not modelled.
- Heatwaves.MhwMetrics: on a field of whole years, requires the threshold to be above the mean on every day whose SST exceeds the threshold (`Heatwaves.ThreshAboveMeanOnExceedance`). On an exceedance day whose threshold equals the mean, numpy divides by zero and gets +inf, so the event's category is 'Extreme'; reals have no infinity, so that case is not modelled. On one whose threshold is below the mean the tier can be 0 or less: tiers 0 down to -3 make `categories[...]` index from the end, and a tier of -4 or less raises IndexError; neither is modelled. The precondition covers every exceedance day, although the source divides only on the days of runs of at least five days, so it also excludes fields whose shorter exceedance runs have the threshold at or below the mean, which the source processes without dividing on them. Days without exceedance are unconstrained. `Heatwaves.CellOfField` and `Heatwaves.CellHeatwaves` carry the same precondition for their cell.
- Heatwaves.MhwMetrics: requires distinct values in `t`. With repeats, `np.where(t == ...)[0][0]` can pick a different day from the one the run started on.
- Heatwaves.MhwMetrics: requires `t`, the field and both tables to have matching shapes, which the source assumes without checking.
- EventMetrics.CategoryOf: is total, but a tier below 1, which the precondition on exceedance days excludes, is not mapped through `categories[-1]`.
- `rate_onset` and `rate_decline` are declared by `mhw_metrics` but never filled, so they are not part of the record.
- The grid cell's `lat`/`lon` values are stored as reals and the per-event lists as one sequence of event records, rather than parallel lists.
- EddyCensus.EddyCensusCalc: requires `clim_mean` to have 365 days on the `lat`/`lon` grid; the source's `np.reshape` of it would raise otherwise.
- EddyCensus.EddyCensusCalc: requires the SST field's lat and lon axes to have the lengths of `lat` and `lon`, so that every index found in those lists addresses the field. The source never checks this: a field larger than the grid is read without error, and a smaller one raises IndexError when an index beyond it is read; neither case is modelled.
- EddyCensus.EddyCensusCalc: requires every per-point list of a track to be at least as long as `lon`.
- Times are integers. The source stores them in float arrays and converts them with `int()`, which is the identity on whole numbers.
- `print` progress output, the plotting module and the companion script that loads NetCDF files are not part of this model.
- Arrays the source creates with `np.zeros` and fills index by index are sequences updated index by index, so aliasing between them is not modelled. None of them is shared in the source.
