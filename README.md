# Downsampler interface of plotly-resampler, modelled in Dafny

This project models the core of the downsampler interface
`AbstractSeriesDownsampler` of plotly-resampler. It covers two parts.

**The `downsample` dispatch.** Each call goes through these steps in order:

- An empty series is returned untouched.
- The series' dtype name is checked against an optional allow-list of
  regular expressions.
- The pluggable reduction strategy runs only when the series is longer than
  the requested number of points `n_out`.
- When configured, the gap interleaver runs on the result.

**The gap interleaver.** It works like this:

- It measures the index spacing of each row from the previous one.
- It takes two quantiles of those spacings: the 0-quantile, which is the
  minimum spacing, and the 0.95-quantile, which is the gap threshold.
  Both use linear interpolation between order statistics.
- Every row whose spacing strictly exceeds the threshold closes a gap. A copy
  of that row gets a null value and an index moved back by half the minimum
  spacing. That copy is the marker.
- The markers and the original rows are merged and sorted by index.

The model's files:

- `wrappers.dfy`: `Option`, `Result` and `Outcome`.
- `sorting.dfy` (module `Sorting`): an insertion sort by a real key. It is
  proved to return a sorted permutation. With distinct keys, the sorted
  permutation is unique.
- `quantile.dfy` (module `Quantiles`): the linear-interpolation quantile and
  its bounds.
- `gaps.dfy` (module `Gaps`): `_interleave_gaps_none` as functions over
  sequences, with its properties.
- `resampling_interface.dfy` (module `ResamplingInterface`): the
  configuration, `_supports_dtype` and `downsample`.
  - `_supports_dtype` is a method with the source's early-exit loop.
  - `downsample` is a method that rebinds the series step by step.
  - Both are proved against functions. The lemmas are stated about those
    functions.
- `scenarios.dfy` (module `Scenarios`): a worked example. One wide gap gets
  exactly one marker.

How the source maps onto the model:

- A series is a `seq<Sample<V>>`. A sample is an exact `real` index (seconds,
  for a timestamp index) and an `Option<V>` value.
- The constructor `__init__` sets three fields once and never changes them.
  They become the datatype `Config`:
  - `interleaveGaps` defaults to true.
  - `dtypeRegexList` defaults to None.
  - The constant `maxGapQ` is 0.95.
- Three things the source calls are outside the model. They are passed in as
  parameters instead:
  - The abstract `_downsample` becomes `reduce(series, nOut)`.
  - The regex engine's anchored `match` becomes `matches(pattern, dtypeName)`.
  - The dtype's string name becomes `dtype`.
- pandas' `diff` is modelled by `Diff`: one entry per row, with None for the
  first row.
- `quantile` skips that missing entry.
- Strictly increasing indices are the well-formed input. On that input,
  `InterleaveIsInsertMarkers` proves the following. The sorted merge equals
  the series in which each row that closes a gap is directly preceded by its
  marker.

Points about the code that the model makes explicit:

- An empty allow-list rejects every non-empty series. Only a missing list
  (None) turns the dtype check off.
- There is no separate exit for fewer than two spacings. A single spacing is
  its own quantile and never exceeds itself, so the series comes back
  unchanged (`ShortSeriesUnchanged`).
- `downsample` does not check that the strategy returns at most `n_out`
  rows, so the model does not assume it.
  - `IdempotentWithoutGaps` takes that bound as a hypothesis.
  - After gap interleaving, the output may hold more than `n_out` rows
    (`OutputMayExceedNOut`), so a second call may reduce again.

## Model

| member | source | states |
|---|---|---|
| `ResamplingInterface.SupportsDtype` | plotly_dynamic_resampling/downsamplers/resampling_interface.py:27-38 | passes iff there is no allow-list or some pattern matches the dtype name; on failure the error names the dtype and the configured patterns |
| `ResamplingInterface.Downsample` | plotly_dynamic_resampling/downsamplers/resampling_interface.py:65-78 | the step-by-step method returns exactly what the dispatch function `DownsampleResult` prescribes, the dtype check included |
| `ResamplingInterface.EmptyReturnedUnchanged` | plotly_dynamic_resampling/downsamplers/resampling_interface.py:66-68 | an empty series comes back unchanged for every configuration, dtype and matcher (even an empty allow-list): the dtype check is never consulted |
| `ResamplingInterface.FailsIffUnsupported` | plotly_dynamic_resampling/downsamplers/resampling_interface.py:27-38 | a non-empty series fails iff its dtype is unsupported, and the error carries the dtype and the patterns |
| `ResamplingInterface.AllowListExtremes` | plotly_dynamic_resampling/downsamplers/resampling_interface.py:29-30 | no allow-list accepts every non-empty series; an empty allow-list rejects every non-empty series |
| `ResamplingInterface.NoReductionWhenShortEnough` | plotly_dynamic_resampling/downsamplers/resampling_interface.py:72-73 | when the length is at most `n_out` the result does not depend on the reduction strategy, and a non-empty supported series reaches the gap step unchanged: the result is the input, or the 0.95 interleaver applied to the input |
| `ResamplingInterface.ReductionWhenTooLong` | plotly_dynamic_resampling/downsamplers/resampling_interface.py:72-76 | a supported series longer than `n_out` is replaced by the strategy's output, which then goes (or not) through the 0.95 gap interleaver |
| `ResamplingInterface.NoMarkersWhenDisabled` | plotly_dynamic_resampling/downsamplers/resampling_interface.py:75-78 | with gap interleaving off the result is the (possibly reduced) series with nothing added |
| `ResamplingInterface.IdempotentWithoutGaps` | plotly_dynamic_resampling/downsamplers/resampling_interface.py:65-78 | with gap interleaving off and a strategy that keeps to `n_out` rows, downsampling the output again returns it unchanged |
| `ResamplingInterface.ShortSeriesKeepsRows` | plotly_dynamic_resampling/downsamplers/resampling_interface.py:65-78 | a strictly increasing supported series needing no reduction comes back strictly increasing and, markers removed, equal to the input; with interleaving on and two or more rows it is one row longer per spacing above the threshold |
| `Sorting.SortByCorrect` | plotly_dynamic_resampling/downsamplers/resampling_interface.py:60-62 | the merge's sort returns a permutation of its input, sorted by index |
| `Sorting.SortedPermutationUnique` | plotly_dynamic_resampling/downsamplers/resampling_interface.py:60-62 | a sorted sequence and a strictly increasing one with the same elements are equal, so with distinct indices the sort's tie-breaking cannot matter |
| `Quantiles.Quantile` | plotly_dynamic_resampling/downsamplers/resampling_interface.py:48 | the quantile is defined exactly when there is at least one spacing |
| `Quantiles.QuantileZeroIsMinimum` | plotly_dynamic_resampling/downsamplers/resampling_interface.py:48 | the 0-quantile is one of the values and no greater than any of them |
| `Quantiles.QuantileBetweenOrderStatistics` | plotly_dynamic_resampling/downsamplers/resampling_interface.py:48 | every quantile lies between the smallest and largest order statistic |
| `Quantiles.QuantileWithinRange` | plotly_dynamic_resampling/downsamplers/resampling_interface.py:48 | every quantile is at least the 0-quantile and at most some value |
| `Quantiles.QuantileOfConstant` | plotly_dynamic_resampling/downsamplers/resampling_interface.py:48 | when all values equal `c` every quantile is `c` |
| `Gaps.FirstRowNeverGap` | plotly_dynamic_resampling/downsamplers/resampling_interface.py:43-52 | on a strictly increasing series the first row is never among the selected gap rows, whatever the threshold |
| `Gaps.DeltasAt` | plotly_dynamic_resampling/downsamplers/resampling_interface.py:42-45 | the spacings handed to the quantile are the consecutive index differences, one fewer than the rows |
| `Gaps.ThresholdBetweenMinAndMax` | plotly_dynamic_resampling/downsamplers/resampling_interface.py:48 | with two or more rows, minimum spacing <= threshold <= some spacing (the largest) |
| `Gaps.StatisticsOfIncreasing` | plotly_dynamic_resampling/downsamplers/resampling_interface.py:48 | on a strictly increasing series the minimum spacing is positive and at most the threshold |
| `Gaps.GapRowsCount` | plotly_dynamic_resampling/downsamplers/resampling_interface.py:52 | the selected rows are as many as the spacings strictly above the threshold |
| `Gaps.GapRowsAreBoundaries` | plotly_dynamic_resampling/downsamplers/resampling_interface.py:52 | every selected row is a row whose spacing strictly exceeds the threshold |
| `Gaps.MarkerPlacement` | plotly_dynamic_resampling/downsamplers/resampling_interface.py:54-58 | every marker is null and sits at `index[i] - min_diff/2` for a row `i >= 1` whose spacing exceeds the threshold |
| `Gaps.MarkerInsideGap` | plotly_dynamic_resampling/downsamplers/resampling_interface.py:54-58 | on a strictly increasing series every marker lies strictly between `index[i-1]` and `index[i]` of its gap |
| `Gaps.NoGapUnchanged` | plotly_dynamic_resampling/downsamplers/resampling_interface.py:52-53 | when no spacing exceeds the threshold the series is returned unchanged |
| `Gaps.ShortSeriesUnchanged` | plotly_dynamic_resampling/downsamplers/resampling_interface.py:48-63 | a series of at most two rows is returned unchanged |
| `Gaps.EvenSpacingUnchanged` | plotly_dynamic_resampling/downsamplers/resampling_interface.py:48-63 | a series whose spacings are all equal is returned unchanged |
| `Gaps.InterleaveContents` | plotly_dynamic_resampling/downsamplers/resampling_interface.py:52-62 | the output holds exactly the original rows plus the markers, and its length is the input length plus the number of spacings above the threshold |
| `Gaps.InterleaveSorted` | plotly_dynamic_resampling/downsamplers/resampling_interface.py:59-62 | an index-sorted series stays sorted by index |
| `Gaps.InterleaveStrictlyIncreasing` | plotly_dynamic_resampling/downsamplers/resampling_interface.py:54-62 | a strictly increasing series stays strictly increasing: no marker collides with a row or another marker |
| `Gaps.InterleaveIsInsertMarkers` | plotly_dynamic_resampling/downsamplers/resampling_interface.py:52-62 | on a strictly increasing series the sorted merge equals the series with each gap-closing row directly preceded by its marker |
| `Gaps.InterleaveKeepsOriginals` | plotly_dynamic_resampling/downsamplers/resampling_interface.py:59-62 | removing the markers (keeping rows at original indices) yields the original rows in their original order with their values |
| `Scenarios.OutputMayExceedNOut` | plotly_dynamic_resampling/downsamplers/resampling_interface.py:72-78 | with interleaving on, six rows and `n_out = 6` come back as seven rows: the output can exceed `n_out` |
| `Scenarios.OneWideGap` | plotly_dynamic_resampling/downsamplers/resampling_interface.py:40-63 | rows at 0, 1, 2, 3, 4, 14 gain exactly one null marker, at 13.5 |

## Left out

- pandas machinery is not modelled: `reset_index`, `set_index`, `iloc`, index names and dtype objects. A series is a sequence of (index, value) rows, and the dtype is its name as a string.
- The conversion of a `DatetimeIndex` to seconds and the `Timedelta` arithmetic are not modelled. Every index is already a number of seconds.
- Floating point is not modelled: indices, spacings and quantiles are exact reals.
  - pandas yields NaN for a missing spacing and for the quantile of no values. The model uses None instead.
  - A comparison with NaN is false, so a NaN threshold selects no rows. A None threshold behaves the same way.
  - The `is not None` test therefore needs no separate case.
- The regular-expression engine is not part of this model. Matching is the `matches` parameter.
- Concrete reduction strategies are not part of this model. `_downsample` is abstract in the source and is the `reduce` parameter, which has no contract. Nothing in the model assumes that its output has at most `n_out` rows.
- The order of rows with equal indices is not specified. `sort_index` does not guarantee an order there, and the model sorts stably. The theorems about the merged order therefore assume a strictly increasing index, where no ties arise.
- Exceptions are modelled as values: `_supports_dtype` raising `ValueError` becomes the `UnsupportedDtype` error of a `Result`.
