# Market-crowding signal engine, modelled in Dafny

The engine turns a table of closing prices (one row per asset and period) into
a series of integer *signals*, one per period end time. For an end time it
takes the window of the last `corr_win + smth_win` periods. It builds one price
vector per timestamp in a fixed asset order and computes the simple returns
between consecutive periods. It then takes `smth_win` overlapping sub-windows
of `corr_win` return rows. For each sub-window it computes a correlation
matrix, discretizes it to 0/1 and takes its eigenvalues, ordered by decreasing
magnitude. It averages these spectra position-wise. The signal is the first
index of the mean spectrum whose magnitude falls below a gap threshold.

The series is kept in a file. When the file exists it is updated
incrementally: the engine computes only the end times after its last row, up
to the last complete period of the clock, from a trimmed price table. When the
file does not exist it is built fresh over every time in the table.

The modules follow the program's structure:

- `Base` holds the shared vocabulary: `Option`, `Result`, a `Float` that is a
  real or NaN, the configuration, and the two abstract numerical routines.
- `Clock` models `Interval` and `get_last_complete_period`, with the current
  time as an integer Unix timestamp.
- `Window` models the window selection, the distinct timestamps and the price
  vectors.
- `Correlation` models the return matrix and the discretization. Each exists as
  a value function and as the in-place `array2` routine the engine runs, and
  the routine is proved equal to the function.
- `Spectrum` models the magnitude sort, the averaging, the eigen-gap scan and
  `compute_dseg`.
- `Series` models one window's signal, the series over a list of end times,
  the update schedule and trim, and the `update`/`compute` decision. The series
  file is a class `SeriesFile`: a `present` flag and its rows.

Two behaviours of the code are easy to miss:

- `discretize` with a threshold of zero or below turns every entry into 1,
  NaN included. The first two passes write zeros, and the third pass then
  turns those zeros into ones. A NaN therefore ends as 0 only for a positive
  threshold.
- The update schedule `range(since + step, lcp + step, step)` ends exactly at
  the last complete period only when `since` lies on the same step grid. For
  any other `since` its last element lies after that period, but less than one
  step after it. The lemmas carry that hypothesis explicitly.

## Model

| member | source | states |
|---|---|---|
| Clock.Minutes | util.py:10-12 | An interval's length in minutes is positive and a whole number of hours (60 for HOUR, 1440 for DAY). |
| Clock.Step | util.py:19 | An interval's step in seconds is positive, a whole number of hours, and divides a day. |
| Clock.PeriodBeginning | util.py:15-18 | Zeroing minutes and seconds, and for DAY also the hour, is rounding `now` down to the interval's step in seconds: the result is on the grid and less than one step before `now`. |
| Clock.MidnightOfHourStart | util.py:15-18 | Truncating the top of the hour to midnight gives the same result as truncating `now` to whole days. |
| Clock.RoundDown | util.py:15-16 | Rounding down to a multiple of d lands on the grid and at most d - 1 below the input. |
| Clock.NoRemainderBelowStep | util.py:19 | The only grid point in [0, step) is 0. |
| Clock.GridDifference | util.py:19 | Two points of the same grid differ by a multiple of its step. |
| Clock.GridGap | util.py:19 | Two distinct points of the same grid are at least one step apart. |
| Clock.StepsNoFewer | signals.py:49 | More steps of the same length reach no less far. |
| Clock.LastCompletePeriod | util.py:14-19 | The result lies on the interval's grid and has fully elapsed (`r + step <= now`). The period after it has not (`now < r + 2·step`). |
| Clock.LastCompletePeriodIsLatest | util.py:14-19 | Every grid boundary whose period has elapsed is at or before the result: the result is the latest complete period. |
| Clock.LastCompletePeriodMonotone | util.py:14-19 | A later clock never yields an earlier period. |
| Clock.DayResultOnHourGrid | util.py:10-12 | A DAY result is also on the hour grid. |
| Window.Filter | signals.py:78-79 | A row is kept exactly when it is in the table and its time satisfies the mask; no rows are added. |
| Window.FilterAppend | signals.py:78-79 | Filtering distributes over concatenation, so the kept rows stay in table order. |
| Window.FilterNarrower | signals.py:48 | Filtering first by a wider time condition does not change the result of a narrower filter. |
| Window.WindowStart | signals.py:77 | The range from the start to the end time spans exactly `corr_win+smth_win` periods, the start lies on the end time's grid, and it is not after the end time for a non-empty window. |
| Window.WindowRows | signals.py:76-79 | The window holds exactly the table rows with `end − (corr_win+smth_win−1)·interval·60 ≤ time ≤ end`. |
| Window.InsertTime | signals.py:34 | Inserting a time into a strictly increasing sequence keeps it strictly increasing and adds exactly that time. |
| Window.DistinctTimes | signals.py:34 | The times are strictly increasing (hence distinct), and a time is listed iff some row has it. |
| Window.DescendingTimes | signals.py:68 | The window's times are strictly decreasing, each time of the window appears, nothing else does, and they have the same count as the ascending list. |
| Window.PriceAt | signals.py:82-83 | No value iff no row matches the asset and time; otherwise the value is the close of a matching row after which no other row matches (the dict keeps the last row). |
| Window.FormatPrices | signals.py:81-84 | The vector has one entry per configured asset, in order. Entry i is missing iff asset i has no row at that time, and otherwise it is the close of such a row. |
| Window.CompleteWindowIsGrid | signals.py:66-79 | When the end time and all table times are on the interval grid, a complete window's times are exactly `end, end − step, …`, latest first. |
| Correlation.ApplyInPlace | signals.py:108-110 | One masked assignment: every entry is replaced by a function of its old value, and nothing else changes. |
| Correlation.SimpleReturn | signals.py:88 | The result is no value iff the older price is 0; otherwise it is the change relative to the older price (`r·older = newer − older`). |
| Correlation.Returns | signals.py:86-88 | The return matrix has one row fewer than the price matrix (none for none) and the same column count. |
| Correlation.ReturnEntry | signals.py:87-88 | Entry (t, j) compares period t with period t + 1, after missing prices pass through `PriceOrOne` (signals.py:87) and the quotient through `SimpleReturn`. Two missing prices give 0, a missing price counts as 1, observed prices give `(p − q)/q`, and a zero divisor gives no value. |
| Correlation.GetReturns | signals.py:86-88 | In place: the missing prices of the array are overwritten with 1. The fresh result array equals `Returns` of the original prices. |
| Correlation.DiscretizeEntry | signals.py:107-111 | The composition `OneIfAtLeast(ZeroIfBelow(ZeroIfNaN(x)))`, one function per masked assignment at signals.py:108-110. The result is 0 or 1. For a positive threshold it is 1 iff the entry is a number at or above the threshold. For a threshold of zero or below it is always 1. |
| Correlation.DiscretizeMatrix | signals.py:107-111 | The shape is kept and every entry is 0 or 1. For a positive threshold an entry is 1 iff the original is a number at or above the threshold. |
| Correlation.DiscretizePreservesSymmetry | signals.py:107-111 | A symmetric matrix stays symmetric. |
| Correlation.DiscretizeBoundary | signals.py:109-110 | A value exactly at the threshold becomes 1, one just below becomes 0, and NaN becomes 0 (threshold 0.5). |
| Correlation.Discretize | signals.py:107-111 | The three in-place passes leave every entry equal to `DiscretizeEntry` of its old value, and the array equals `DiscretizeMatrix` of the old array. |
| Spectrum.InsertByMagnitude | signals.py:105 | Inserting into a sequence of non-increasing magnitude keeps that order and adds exactly the inserted value (as a multiset). |
| Spectrum.SortByMagnitude | signals.py:105 | The result has non-increasing magnitude and is a permutation of the input. |
| Spectrum.InsertKeepsTies | signals.py:105 | Insertion places the new value before every element of equal magnitude, which is what keeps the sort stable. |
| Spectrum.SortByMagnitudeIsStable | signals.py:105 | Values of equal magnitude keep their input order, as Python's `sorted` is stable. |
| Spectrum.CorrelationMatrix | signals.py:101 | The correlation matrix has one row and one column per asset. |
| Spectrum.RawSpectrum | signals.py:103 | The decomposition gives one eigenvalue per asset. |
| Spectrum.Eigvals | signals.py:99-105 | One value per asset, non-increasing in magnitude, and a permutation of the eigenvalues of the discretized correlation matrix. |
| Spectrum.Mean | signals.py:96 | The position-wise mean of equally long spectra has their length. |
| Spectrum.ColumnSumOfCopies | signals.py:96 | A column sum of identical entries is the count times that entry. |
| Spectrum.ColumnSumBounds | signals.py:96 | A column sum lies between the count times the lower bound and the count times the upper bound. |
| Spectrum.MeanOfIdentical | signals.py:96 | Averaging identical spectra gives that spectrum back. |
| Spectrum.MeanWithinBounds | signals.py:96 | Each mean entry lies between bounds that hold for every replicate at that position. |
| Spectrum.GapFrom | signals.py:114 | The scan from position i returns the first index at or after i whose magnitude is below the threshold, or none iff no such index exists. |
| Spectrum.EigGap | signals.py:113-114 | The result is the least index whose magnitude is below the threshold, so every earlier index is at or above it. It is none (StopIteration) iff every index is at or above the threshold. |
| Spectrum.EigGapExamples | signals.py:113-114 | `[0.9, 0.8, 0.05, 0.01]` with 0.1 gives 2; an all-ones spectrum with 0.1 has no gap. |
| Spectrum.Slice | signals.py:93 | Python's `s[lo:hi]`: at most `hi − lo` elements, exactly `s[lo..hi]` when `hi` is within the sequence, element k is `s[lo+k]`, and empty when `lo` is past the end. |
| Spectrum.SubWindowFits | signals.py:93-94 | For i < smth_win, `returns[i:i+corr_win]` lies inside the `corr_win+smth_win−1` return rows and has exactly `corr_win` rows, starting at row i. |
| Spectrum.Replicates | signals.py:91-95 | There are exactly smth_win spectra, each with one value per asset and ordered by magnitude. |
| Spectrum.ComputeDseg | signals.py:90-97 | A found gap indexes an asset (it is below the asset count). There is none iff every position of the mean spectrum is at or above the gap threshold. |
| Series.PriceMatrix | signals.py:72 | One price vector per timestamp, each with one entry per asset. |
| Series.WindowSignal | signals.py:66-74 | The result is no value iff the window's distinct-time count differs from `corr_win+smth_win`. A complete window gives an index below the asset count, or fails: with GapNotFound, or with NoReplicates when `smth_win = 0`. |
| Series.CompleteWindowSubWindowsFit | signals.py:69-94 | In a complete window the return matrix has `corr_win+smth_win−1` rows, and each sub-window has `corr_win` rows. |
| Series.WindowSignalDependsOnWindow | signals.py:66-74 | A window's signal depends on the table only through the window's rows. |
| Series.ComputeSignalDf | signals.py:57-64 | One row per end time, in order, each holding that time and its window's signal. It fails iff some window fails, and then with that window's error. |
| Series.SignalDfDependsOnWindows | signals.py:57-64 | Two tables whose windows agree at every end time give the same series. |
| Series.Range | signals.py:49 | Python's `range` with a positive step: non-empty iff start < stop; element k is `start + k·step`, inside `[start, stop)`; the last element is within one step of stop. |
| Series.Schedule | signals.py:45-49 | The schedule is empty iff `since ≥ lcp` (nothing is computed then). It advances by exactly one step from `since + step` and stays inside `(since, lcp + step)`. |
| Series.ScheduleEndsAtLastCompletePeriod | signals.py:47-49 | When `since` is on the grid of lcp, the last scheduled time is lcp and every scheduled time is at most lcp. |
| Series.LastOnGridOfLcp | signals.py:49 | Under the same hypothesis, the last scheduled time is on lcp's grid and within one step after lcp. |
| Series.KeptAfter | signals.py:48 | The trim condition keeps every time from the start of the window of the first scheduled end time `since + step` on, and drops only times at or before `since − (corr_win+smth_win)·step`. |
| Series.Trim | signals.py:48 | The trimmed table holds exactly the rows after `since − (corr_win+smth_win)·step`. |
| Series.TrimKeepsScheduledWindows | signals.py:48-79 | For every scheduled end time, the window of the trimmed table equals the window of the whole table. |
| Series.TrimKeepsSignals | signals.py:48-50 | The signals computed from the trimmed table over the schedule equal those from the whole table. |
| Series.FreshBuild | signals.py:34-35 | The fresh series has strictly increasing times; a time appears iff some table row has it; its only failure is that of a complete window (GapNotFound, or NoReplicates when `smth_win = 0`). |
| Series.AppendKeepsIncreasing | signals.py:49-51 | Appending the rows of a schedule after the last row keeps the series times strictly increasing. |
| Series.UpdateResult | signals.py:40-55 | An empty series fails with EmptySeries, and only an empty one does. Any other failure is that of a complete window. A success keeps the old rows as a prefix (append-only) and keeps the times strictly increasing. |
| Series.UpdateAppendsScheduledSignals | signals.py:44-53 | Up to date (`since ≥ lcp`) means unchanged. Otherwise the update appends exactly the signals the whole table gives for the schedule, or fails with that computation's error. |
| Series.UpdateIsIdempotent | signals.py:44-53 | Updating an updated series again with the same clock changes nothing. |
| Series.FreshAndIncrementalAgree | signals.py:28-55 | A time present both in a fresh build and in the rows an update appended has the same signal in both. |
| Series.SeriesFile.constructor | signals.py:42 | A new file handle stands for a missing file with no rows. |
| Series.Update | signals.py:40-55 | A missing file fails with SeriesNotFound and writes nothing. Otherwise the result is `UpdateResult` of the stored rows, a success replaces the stored rows by it, and a failure writes nothing. |
| Series.Compute | signals.py:28-38 | An existing file is updated. A missing one gets a fresh build, written only on success, and stays missing on failure. The file's invariant is kept. |

## Left out

- File and console I/O are not modelled: the CSV read, append and write of the series, the `print` calls and `format_path`. The series file is the `SeriesFile` object, and "the file is missing" is its `present` flag.
- Series.Update: reading the file back yields the rows written, so the CSV round trip of signal values is not modelled (the int/float conversion pandas applies to a column holding missing values).
- `np.corrcoef` and `np.linalg.eigh` are abstract functions in `Numerics`, entry by entry. Nothing is proved about actual correlations or eigenvalues. The matrix shapes (n × n, n eigenvalues) hold by construction.
- IEEE arithmetic: prices and returns are reals. A division by a zero price gives NaN, so infinities and their propagation are not modelled, and NaN compares false against every threshold.
- numpy's degenerate shapes are not modelled. With a single asset, `np.corrcoef` returns a scalar, and the masked assignment at signals.py:108 cannot index it, so the source fails at every complete window; the model returns a signal there. The numerics of a sub-window with no rows (`corr_win = 0`) are likewise left to the abstract routines.
- With `smth_win = 0` the source fails at every complete window: the mean over zero spectra is a zero-dimensional array (signals.py:96), and iterating it raises TypeError (signals.py:114). The model records this as the error NoReplicates and does not model numpy's warning or the exception's message. When also `corr_win = 0`, the source fails earlier, with IndexError at signals.py:88 (`[:-1,:]` on a one-dimensional empty array), and the model still reports NoReplicates. Incomplete windows still give no value, as in the source.
- The wall clock (`datetime.now`) is the parameter `now`, a Unix timestamp in whole seconds. Truncation to the hour and to midnight is remainder arithmetic, which is valid because the Unix epoch is a UTC midnight and POSIX time has no leap seconds.
- The default configuration constants (constants.py:16-20) are configuration data only. `Config` takes them as parameters.
- `AssetType` and `Signals.__init__` only store settings and have no behaviour to model.
- market_data.py (HTTP requests and CSV storage) and plots.py (chart construction) are not part of this model.
- Concurrent writers of the series file are not modelled.
