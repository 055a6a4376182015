# Segmentation and lagged pooling of time series, in Dafny

This project models three routines of `time_series.py` and proves properties of them.

- **`segment_basic`** turns a boolean signal into the start and end positions of its maximal runs of `True`. It pads the signal with `False` and finds the +1 and -1 first differences. A caller may supply an index `t`: the starts are then `t` at the rising positions, and the ends are `t` at the last `True` positions, plus one.
- **`segment_by_threshold`** runs `segment_basic` on `x > threshold`. It builds one row `[start, onset, peak, offset, end]` per run, plus the peak value of each run, and then maps every row field through a time index.
- **`xcov_multi_with_confidence`** contributes only its lag loop. The model covers:
  - the check that zipped pairs have equal lengths;
  - for every lag in `range(-lag_backward, lag_forward)`, cutting x and y in opposite directions, at every non-zero lag dropping series no longer than `|lag|` (lag 0 keeps every series unchanged), and pooling the cuts by concatenation;
  - handing the pools to a statistics routine and collecting its four results.

Files:

- `wrappers.dfy` (module `Wrappers`): `Option` and `Result`.
- `run_segmenter.dfy` (module `RunSegmenter`): `segment_basic`, which is pure, as functions. The `IsRuns` predicate describes maximal runs independently of the difference trick. It is proved to hold of the output, and to determine the output uniquely.
- `threshold_segmenter.dfy` (module `ThresholdSegmenter`): `segment_by_threshold`.
  - The peak loop is the method `Peaks`.
  - The table is built by `IndexTable` and mapped by `SegmentByThreshold`.
  - Both are proved against the predicate `IsThresholdTable`. It states the row layout, and the lemmas show that the layout has exactly one solution.
- `lagged_covariance.dfy` (module `LaggedCovariance`): the lag loop as the method `XcovMultiWithConfidence`, proved against `IsLagTable`.
  - Pooling is specified twice: `PooledX`/`PooledY` follow the code, concatenating the list of cut series, and `XPool`/`YPool` take one share per series. The two are proved equal.
  - The length and alignment lemmas are stated about both.

Signal values of `segment_by_threshold` are used only through `>`, `max` and `argmax`, so they are `int`. Samples of `xcov_multi_with_confidence` are `real`, and they are only moved around. The statistics routine `stats.cov_with_confidence` is the function parameter `covWithConfidence`.

Where the code and its documentation differ, the model follows the code:

- The threshold test is the strict `x > threshold` (time_series.py:45), although the docstring says "must be >=" (time_series.py:35).

Behaviour worth noting:

- With a supplied `t`, an end is `t[last] + 1`, not `t[last + 1]` (time_series.py:24). `RunSegmenter.EndIsMappedPlusOne` shows an index `t` for which the two differ.
- In the threshold table, neighbouring windows overlap: `start[i+1] = offset[i] < onset[i+1] = end[i]`. So a row's window `[start, end)` reaches past the next row's start (`ThresholdSegmenter.WindowsOverlap`).
- `np.concatenate` of an empty list raises (time_series.py:112-113). This happens at lag 0 when `xs` is empty, and at any other lag when no series is longer than `|lag|`. The model returns the error `NothingToConcatenate`.
- The shape check zips `xs` with `ys`, so it compares only the first `min(len(xs), len(ys))` pairs (time_series.py:91). `PairedLengths` does the same. The pools are still built from all of `xs` and all of `ys`. The y side can then be empty when the x side is not, so the empty-pool error is stated for either side (`NoParts`). `NoPartsIff` shows that for as many x as y series the two sides are empty at the same lags.

## Model

| member | source | states |
|---|---|---|
| `RunSegmenter.Range` | time_series.py:20-21 | `np.arange(n)`: the sequence 0, 1, ..., n - 1 |
| `RunSegmenter.Indicator` | time_series.py:23-24 | `astype(int)` of a boolean: 1 for `True`, 0 for `False` |
| `RunSegmenter.Diff` | time_series.py:23-24 | `np.diff` of the 0/1 image: entry i is the image of s[i + 1] minus that of s[i]; empty for fewer than two samples |
| `RunSegmenter.RiseDiff` | time_series.py:23 | `np.diff(cc([[False], x]).astype(int))`: the differences of the signal with a leading `False` |
| `RunSegmenter.FallDiff` | time_series.py:24 | `np.diff(cc([x, [False]]).astype(int))`: the differences of the signal with a trailing `False` |
| `RunSegmenter.PositionsComplete` | time_series.py:23-24 | every position from k on where the differences equal v is listed by `Positions`, so `nonzero()` misses none |
| `RunSegmenter.Gather` | time_series.py:23-24 | `t[idx]`: the entries of t at the given positions, in their order |
| `RunSegmenter.PlusOne` | time_series.py:24 | the `+ 1` applied to the mapped ends, entry by entry |
| `RunSegmenter.IsRuns` | time_series.py:12-17 | the segments of consecutive `True`s the docstring describes: the intervals are all `True`, bounded by `False` or an end of the signal, ordered, separated, and cover every `True` |
| `RunSegmenter.Positions` | time_series.py:23-24 | `nonzero()[0]` of `d == v`: the positions from k on holding v, strictly ascending |
| `RunSegmenter.RiseDiffAt` | time_series.py:23 | the difference of the `False`-prefixed signal is +1 at p exactly when a run of `True` starts at p |
| `RunSegmenter.FallDiffAt` | time_series.py:24 | the difference of the `False`-suffixed signal is -1 at q exactly when q is the last `True` of a run |
| `RunSegmenter.GatherRange` | time_series.py:20-21 | indexing the default `np.arange(len(x))` by positions gives the positions back |
| `RunSegmenter.Rising` | time_series.py:23 | every rising position lies inside the signal |
| `RunSegmenter.LastTrue` | time_series.py:24 | every last-`True` position lies inside the signal |
| `RunSegmenter.SegmentBasic` | time_series.py:10-26 | starts and ends have equal length; with the default index, `0 <= starts[i] < ends[i] <= len(x)` |
| `RunSegmenter.RunsOfDiffs` | time_series.py:23-24 | the rising positions and the last-`True` positions plus one are the maximal runs of `True`: each run is all `True`, has `False` (or an end of the signal) on each side, the runs are ordered and separated by a gap, and every `True` lies in a run |
| `RunSegmenter.DefaultRuns` | time_series.py:20-24 | the default output of segment_basic satisfies that description of the maximal runs |
| `RunSegmenter.RunsUnique` | time_series.py:23-24 | the description of the maximal runs has exactly one solution, so it determines segment_basic's output |
| `RunSegmenter.SuppliedIndex` | time_series.py:23-24 | with a supplied index `t`, `starts[i] = t[p]` for the default start p, and `ends[i] = t[q] + 1` for the last `True` position q = default end - 1 |
| `RunSegmenter.EndIsMappedPlusOne` | time_series.py:24 | for x = [T, F, F] and t = [0, 10, 20] the end is 1 = t[0] + 1, not t[1] = 10 |
| `RunSegmenter.DocExample` | time_series.py:16-17 | [F, F, F, T, T, F] gives ([3], [5]); through the index [10, ..., 15] it gives ([13], [15]) |
| `RunSegmenter.AllFalse` | time_series.py:23-24 | an all-`False` signal gives empty starts and ends |
| `RunSegmenter.AllTrue` | time_series.py:23-24 | an all-`True` signal of length n > 0 gives ([0], [n]) |
| `RunSegmenter.SingleRun` | time_series.py:23-24 | a signal that is `True` exactly on [a, b) gives ([a], [b]) |
| `RunSegmenter.RunsEmptyIff` | time_series.py:23-24 | there are no runs exactly when no sample is `True` |
| `RunSegmenter.RunAgreesAt` | time_series.py:23-24 | two solutions of the run description that agree up to run k also agree at run k |
| `RunSegmenter.RunsAgree` | time_series.py:23-24 | two solutions of the run description agree on every common prefix |
| `RunSegmenter.GapBefore` | time_series.py:23-24 | a position between two consecutive runs, or before the first or after the last run, holds `False` |
| `RunSegmenter.RunsOfMarks` | time_series.py:23-24 | the +1 positions and the -1 positions (plus one) of any sequences marking rises and last `True`s form the maximal runs |
| `RunSegmenter.PairFrom` | time_series.py:23-24 | from any position not inside a run, the +1 and -1 positions pair up into the runs that follow, in order and separated |
| `ThresholdSegmenter.Above` | time_series.py:45 | `x > threshold` element by element, with the strict comparison |
| `ThresholdSegmenter.IsTableOf` | time_series.py:50-61 | the table of given onsets and offsets: one row per run carrying its onset and offset, first start 0 and last end `len(x)`, `start[i+1] = offset[i]` and `end[i] = onset[i+1]`, `start <= onset <= peak < offset <= end`, the peak the first maximum of the run and the peak value x there |
| `ThresholdSegmenter.IsThresholdTable` | time_series.py:44-64 | `IsTableOf` for the onsets and offsets that `segment_basic(x > threshold)` returns |
| `ThresholdSegmenter.Onsets` | time_series.py:73 | the onset column of a table |
| `ThresholdSegmenter.Offsets` | time_series.py:73 | the offset column of a table |
| `ThresholdSegmenter.TableRowsAreRuns` | time_series.py:45-73 | the onset and offset columns of a threshold table are exactly the maximal runs of `x > threshold`: one row per run, in order |
| `ThresholdSegmenter.ExampleRuns` | time_series.py:45 | the runs of [0, 0, 5, 3, 0, 0, 8, 0] above 2 are [2, 4) and [6, 7) |
| `ThresholdSegmenter.ExampleColumns` | time_series.py:50-61 | for those runs the rows [0, 2, 2, 4, 6] and [4, 6, 6, 7, 8] with peak values 5 and 8 satisfy the table layout |
| `ThresholdSegmenter.ThresholdExample` | time_series.py:44-64 | [0, 0, 5, 3, 0, 0, 8, 0] above 2 has the threshold table [0, 2, 2, 4, 6], [4, 6, 6, 7, 8] with peak values [5, 8]; by `TableUnique` it is the only one |
| `ThresholdSegmenter.MapRow` | time_series.py:67-71 | `t[starts]`, `t[onsets]`, `t[peak_times]`, `t[offsets]`, `t[ends]` for one row |
| `ThresholdSegmenter.MappedRows` | time_series.py:66-73 | the returned segments are the rows with every field mapped through the time index, one segment per row |
| `ThresholdSegmenter.ActiveRuns` | time_series.py:45 | onsets and offsets come in equal numbers with `0 <= onset < offset <= len(x)` |
| `ThresholdSegmenter.RunIsAbove` | time_series.py:45 | every sample of a run is strictly above the threshold |
| `ThresholdSegmenter.SeparatedRuns` | time_series.py:45 | a run's offset is strictly before the next run's onset |
| `ThresholdSegmenter.NoRunsIffBelow` | time_series.py:45-48 | there are no runs exactly when no sample is strictly above the threshold |
| `ThresholdSegmenter.TimeIndex` | time_series.py:41-42 | the index in use has more than `len(x)` entries; the default is `np.arange(len(x) + 1)` |
| `ThresholdSegmenter.ArgMax` | time_series.py:60 | `np.argmax`: an index of the maximum, the first one where the maximum occurs |
| `ThresholdSegmenter.Max` | time_series.py:61 | `np.max`: an element at least as large as every element |
| `ThresholdSegmenter.WindowPeak` | time_series.py:60-61 | `onset + argmax(x[onset:offset])` is the first position of the window's maximum, and `max(x[onset:offset])` is x there |
| `ThresholdSegmenter.FirstPeak` | time_series.py:60 | the peak time of a window is its first position of the maximum |
| `ThresholdSegmenter.PeakValue` | time_series.py:61 | the peak value of a window is x at the peak time and bounds every sample of the window |
| `ThresholdSegmenter.FirstMaxUnique` | time_series.py:60 | a window has only one first position of its maximum |
| `ThresholdSegmenter.Peaks` | time_series.py:56-61 | the loop appends, for every run in order, its first peak and its peak value: one entry per run |
| `ThresholdSegmenter.ShiftedColumns` | time_series.py:50-53 | `starts = [0] + offsets[:-1]` and `ends = onsets[1:] + [len(x)]`: the start of a run is the previous offset and its end the next onset, with `0 <= start <= onset` and `offset <= end <= len(x)` |
| `ThresholdSegmenter.Assemble` | time_series.py:73 | one row per run carrying the run's onset, peak time and offset |
| `ThresholdSegmenter.AssembleLinks` | time_series.py:50-53 | in the assembled rows the first start is 0 and the last end is `len(x)`; `start[i+1] = offset[i]` and `end[i] = onset[i+1]`; `start <= onset <= peak < offset <= end` |
| `ThresholdSegmenter.TableOfColumns` | time_series.py:50-64 | separated runs with their first peaks and peak values assemble into the table the threshold predicate describes |
| `ThresholdSegmenter.IndexTable` | time_series.py:44-64 | before the time index is applied, the table has one row per maximal run of `x > threshold` in order. Each row, and the first and last, have the layout above, the peak is the first maximum of the run, and its value is x at the peak. With no run the table is empty |
| `ThresholdSegmenter.SegmentByThreshold` | time_series.py:29-73 | some threshold table of x (one row per maximal run above the threshold, see `IsThresholdTable`) exists with the returned peak values, and the returned segments are its rows with all five fields mapped through the time index; the peak values are not mapped |
| `ThresholdSegmenter.DefaultIndexIsIdentity` | time_series.py:41-42 | under the default time index the mapped segments equal the index rows |
| `ThresholdSegmenter.TableEmptyIff` | time_series.py:45-48 | zero rows exactly when no sample is strictly greater than the threshold |
| `ThresholdSegmenter.PeakValuesBound` | time_series.py:59-61 | every peak value bounds every sample of its run and exceeds the threshold |
| `ThresholdSegmenter.WindowsOverlap` | time_series.py:50-53 | the next row's start lies strictly before this row's end |
| `ThresholdSegmenter.TableUnique` | time_series.py:44-64 | the table description has exactly one solution, rows and peak values |
| `LaggedCovariance.PairedLengths` | time_series.py:91 | every zipped pair `(xs[i], ys[i])` has equal lengths; pairs beyond the shorter list are not compared |
| `LaggedCovariance.ShiftedX` | time_series.py:103-110 | the comprehensions `[x[-lag:] for x in xs if len(x) > -lag]` and `[x[:-lag] for x in xs if len(x) > lag]`: the cuts of the series longer than `abs(lag)`, in order |
| `LaggedCovariance.ShiftedY` | time_series.py:103-110 | the comprehensions `[y[:lag] for y in ys if len(y) > -lag]` and `[y[lag:] for y in ys if len(y) > lag]` |
| `LaggedCovariance.XParts` | time_series.py:100-110 | `x_rel`: `xs` itself at lag 0, the cut series at any other lag |
| `LaggedCovariance.YParts` | time_series.py:100-110 | `y_rel`: `ys` itself at lag 0, the cut series at any other lag |
| `LaggedCovariance.Concatenate` | time_series.py:112-113 | `np.concatenate` of a list of series: their samples one series after another |
| `LaggedCovariance.PooledX` | time_series.py:112 | `all_xs = np.concatenate(x_rel)` |
| `LaggedCovariance.PooledY` | time_series.py:113 | `all_ys = np.concatenate(y_rel)` |
| `LaggedCovariance.XPool` | time_series.py:104-112 | the x pool described series by series, each series' share in order |
| `LaggedCovariance.YPool` | time_series.py:105-113 | the y pool described series by series, each series' share in order |
| `LaggedCovariance.PoolSize` | time_series.py:100-113 | the sum, over series longer than `abs(lag)`, of `len - abs(lag)` |
| `LaggedCovariance.LagCount` | time_series.py:99 | the number of lags in `range(-lag_backward, lag_forward)`: `lag_backward + lag_forward`, or 0 when that is not positive |
| `LaggedCovariance.LagEstimate` | time_series.py:115 | `stats.cov_with_confidence(all_xs, all_ys, confidence)` for the pools of one lag |
| `LaggedCovariance.NoParts` | time_series.py:112-113 | `x_rel` or `y_rel` is empty, so `np.concatenate` has nothing to join and raises |
| `LaggedCovariance.IsLagTable` | time_series.py:99-120 | the four columns have one entry per lag, and the entry at index `lag + lag_backward` is the estimate of lag `lag` |
| `LaggedCovariance.XSlice` | time_series.py:104-109 | `x[-lag:]` for lag < 0, `x[:-lag]` for lag > 0: the cut has `len - abs(lag)` samples, and sample j is `x[j + max(0, -lag)]` |
| `LaggedCovariance.YSlice` | time_series.py:105-110 | `y[:lag]` for lag < 0, `y[lag:]` for lag > 0: the cut has `len - abs(lag)` samples, and sample j is `y[j + max(0, lag)]` |
| `LaggedCovariance.XcovMultiWithConfidence` | time_series.py:91-120 | fails with ShapeMismatch exactly when a zipped pair differs in length. Otherwise it fails with NothingToConcatenate exactly when some lag of the range leaves nothing to concatenate. On success the four columns have one entry per lag of `range(-lag_backward, lag_forward)`, and the entry of lag `lag`, at index `lag + lag_backward`, is the statistics routine applied to that lag's pools |
| `LaggedCovariance.ConcatenatedXParts` | time_series.py:112 | `np.concatenate(x_rel)` is the series' x shares in order |
| `LaggedCovariance.ConcatenatedYParts` | time_series.py:113 | `np.concatenate(y_rel)` is the series' y shares in order |
| `LaggedCovariance.XPoolLength` | time_series.py:104-112 | the x pool of a lag has the sum, over series longer than `abs(lag)`, of `len - abs(lag)` samples |
| `LaggedCovariance.YPoolLength` | time_series.py:105-113 | the y pool of a lag has the sum, over series longer than `abs(lag)`, of `len - abs(lag)` samples |
| `LaggedCovariance.SamePoolSize` | time_series.py:91-110 | series paired in length pool the same number of samples at every lag |
| `LaggedCovariance.PoolsHaveEqualLength` | time_series.py:100-113 | for paired series the x and y pools of every lag have the same length, that sum |
| `LaggedCovariance.LagZeroPoolsAll` | time_series.py:100-102 | lag 0 pools all series unchanged, all samples in order |
| `LaggedCovariance.XPoolAt` | time_series.py:104-112 | sample j of series i's x cut sits in the x pool after the samples of the series before it |
| `LaggedCovariance.YPoolAt` | time_series.py:105-113 | sample j of series i's y cut sits in the y pool after the samples of the series before it |
| `LaggedCovariance.PoolsAlign` | time_series.py:100-113 | at one offset of both pools sit `xs[i][j]` and `ys[i][j + lag]` for lag >= 0, and `xs[i][j + abs(lag)]` and `ys[i][j]` for lag < 0 |
| `LaggedCovariance.PooledAlign` | time_series.py:100-113 | the same alignment and equal lengths for `np.concatenate(x_rel)` and `np.concatenate(y_rel)` |
| `LaggedCovariance.ShiftedXEmpty` | time_series.py:104-109 | the x cuts of a non-zero lag are empty exactly when no series is longer than `abs(lag)` |
| `LaggedCovariance.ShiftedYEmpty` | time_series.py:105-110 | the y cuts of a non-zero lag are empty exactly when no series is longer than `abs(lag)` |
| `LaggedCovariance.NoPartsIff` | time_series.py:100-113 | nothing is concatenated at lag 0 exactly when there are no series, and at another lag exactly when no series is longer than `abs(lag)`. For paired series the y side is empty exactly when the x side is |

## Left out

- `stats.cov_with_confidence` (time_series.py:7, 115) is not part of this model. Its source is not available, and it does floating-point statistics. It is the parameter `covWithConfidence` of `XcovMultiWithConfidence`, and nothing is assumed about it beyond being a function of the two pools and the confidence. It is assumed to return normally: if the routine raised, for example on a pool too small for an estimate, the source would propagate that exception, whereas the model reports `Success`.
- The `normed` branch (time_series.py:127-134) is left out. It needs `np.cov` on floats, `sqrt` and in-place division.
- The conversions to NumPy arrays (time_series.py:63-64, 122-125), the dtypes, and the float zeros of the empty `segment_by_threshold` result (time_series.py:48) are left out. Every array is a `seq`, and the empty result is two empty sequences.
- Signal values of `segment_by_threshold` are integers rather than floats. Only `>`, `max` and `argmax` touch them, so no floating-point rounding or NaN is modelled.
- NumPy's negative indexing and its `IndexError` on a short index `t` are left out.
- RunSegmenter.SegmentBasic: requires a supplied `t` to have at least `len(x)` entries. The source fails only if a rising or last-`True` position falls outside `t`.
- ThresholdSegmenter.SegmentByThreshold: requires a supplied `t` to have more than `len(x)` entries, even when there is no run and the source never reads `t`.
- LaggedCovariance.SamePoolSize, PoolsHaveEqualLength, PoolsAlign, PooledAlign and NoPartsIff assume as many x as y series. With different counts the source builds pools that need not line up, and those lemmas have nothing to say about them. `XcovMultiWithConfidence` itself handles any counts.
- Whichever of the two `np.concatenate` calls raises first, the model reports one error, `NothingToConcatenate`. The source raises the same `ValueError` from either.
