/** A worked example of gap interleaving: six evenly spaced rows except for
    one spacing ten times the others gain exactly one null marker, half a
    minimum spacing before the row that closes the wide gap. */
module Scenarios {
  import opened Wrappers
  import opened Sorting
  import opened Quantiles
  import opened Gaps
  import opened ResamplingInterface

  /** Rows at 0, 1, 2, 3, 4 and 14, all holding `v`. */
  function OneWideGapSeries(v: int): Series<int>
  {
    [Sample(0.0, Some(v)), Sample(1.0, Some(v)), Sample(2.0, Some(v)),
     Sample(3.0, Some(v)), Sample(4.0, Some(v)), Sample(14.0, Some(v))]
  }

  /** The spacings are 1, 1, 1, 1, 10: the minimum is 1 and the
      0.95-quantile is 1 + 0.8 * 9 = 8.2. */
  lemma OneWideGapStatistics(v: int)
    ensures MinDiff(OneWideGapSeries(v)) == Some(1.0)
    ensures GapThreshold(OneWideGapSeries(v), 0.95) == Some(8.2)
  {
    var s := OneWideGapSeries(v);
    DeltasAt(s);
    var xs := Deltas(s);
    assert xs[4] == s[5].index - s[4].index;
    assert xs == [1.0, 1.0, 1.0, 1.0, 10.0];
    assert SortBy([10.0], Id) == [10.0];
    assert SortBy([1.0, 10.0], Id) == [1.0, 10.0];
    assert SortBy([1.0, 1.0, 10.0], Id) == [1.0, 1.0, 10.0];
    assert SortBy([1.0, 1.0, 1.0, 10.0], Id) == [1.0, 1.0, 1.0, 10.0];
    assert SortBy(xs, Id) == xs;
    assert Position(5, 0.95) == 3.8;
    assert Position(5, 0.0) == 0.0;
  }

  /** Only the last row's spacing exceeds 8.2, so one marker is inserted
      just before it. */
  lemma OneWideGapMerge(v: int)
    ensures var s := OneWideGapSeries(v);
      InsertMarkers(s, Diff(s), 8.2, 0.5) == s[..5] + [Sample(13.5, None)] + s[5..]
  {
    var s := OneWideGapSeries(v);
    var d := Diff(s);
    assert d == [None, Some(1.0), Some(1.0), Some(1.0), Some(1.0), Some(10.0)];
    assert InsertMarkers(s[5..], d[5..], 8.2, 0.5) == [Sample(13.5, None), s[5]];
    assert InsertMarkers(s[4..], d[4..], 8.2, 0.5) == [s[4], Sample(13.5, None), s[5]];
    assert InsertMarkers(s[3..], d[3..], 8.2, 0.5) == s[3..5] + [Sample(13.5, None), s[5]];
    assert InsertMarkers(s[2..], d[2..], 8.2, 0.5) == s[2..5] + [Sample(13.5, None), s[5]];
    assert InsertMarkers(s[1..], d[1..], 8.2, 0.5) == s[1..5] + [Sample(13.5, None), s[5]];
  }

  /** The interleaver returns the six rows with one null marker at 13.5. */
  lemma OneWideGap(v: int)
    ensures var s := OneWideGapSeries(v);
      InterleaveGapsNone(s, 0.95) == s[..5] + [Sample(13.5, None)] + s[5..]
  {
    var s := OneWideGapSeries(v);
    assert StrictlyIncreasing(s);
    OneWideGapStatistics(v);
    OneWideGapMerge(v);
    InterleaveIsInsertMarkers(s, 0.95);
  }

  /** With gap interleaving on, `downsample` can return more than `nOut`
      rows: six rows with `nOut = 6` need no reduction, and the marker makes
      seven. A second call would then reduce them. */
  lemma OutputMayExceedNOut(dtype: string, reduce: (Series<int>, int) -> Series<int>,
                            matches: (string, string) -> bool)
    ensures var r := DownsampleResult(Config(true, None), OneWideGapSeries(0), dtype, 6, reduce, matches);
      r.Success? && |r.value| == 7 > 6
  {
    OneWideGap(0);
  }
}
