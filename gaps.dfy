/** Gap interleaving (`_interleave_gaps_none`): the spacing between
    consecutive samples is measured, its minimum and its `q`-quantile are
    taken, every sample whose spacing from its predecessor strictly exceeds
    that quantile closes a gap, and for each such sample a null-valued marker
    is placed half a minimum spacing before it; markers and originals are
    then merged and sorted by index. Indices are exact reals (seconds for a
    timestamp index). */
module Gaps {
  import opened Wrappers
  import opened Sorting
  import opened Quantiles

  /** One row of a series: its index and its value, None when null. */
  datatype Sample<V> = Sample(index: real, value: Option<V>)

  /** A series: rows in index order. */
  type Series<V> = seq<Sample<V>>

  /** The sort key of a row: its index. */
  function IndexOf<V>(x: Sample<V>): real { x.index }

  /** Indices never decrease along the series. */
  ghost predicate Sorted<V>(s: Series<V>)
  {
    SortedBy(s, IndexOf)
  }

  /** Indices strictly increase along the series: the well-formed input. */
  ghost predicate StrictlyIncreasing<V>(s: Series<V>)
  {
    StrictlyIncreasingBy(s, IndexOf)
  }

  /** The set of indices the series holds. */
  ghost function IndexSet<V>(s: Series<V>): set<real>
  {
    set i | 0 <= i < |s| :: s[i].index
  }

  // ---------------------------------------------------------------------
  // Spacing statistics

  /** The index difference of every row from the previous one; the first row
      has none (pandas gives NaN there, modelled as None). */
  function Diff<V>(s: Series<V>): seq<Option<real>>
  {
    seq(|s|, i requires 0 <= i < |s| => if i == 0 then None else Some(s[i].index - s[i - 1].index))
  }

  /** The defined entries of `d`, in order (the quantile skips missing ones). */
  function Defined(d: seq<Option<real>>): seq<real>
  {
    if d == [] then []
    else if d[0].Some? then [d[0].value] + Defined(d[1..])
    else Defined(d[1..])
  }

  /** The defined spacings of the series: the quantile's input. */
  function Deltas<V>(s: Series<V>): seq<real>
  {
    Defined(Diff(s))
  }

  /** The minimum spacing: the 0-quantile of the spacings. */
  function MinDiff<V>(s: Series<V>): Option<real>
  {
    Quantile(Deltas(s), 0.0)
  }

  /** The gap threshold: the `q`-quantile of the spacings. */
  function GapThreshold<V>(s: Series<V>, q: Fraction): Option<real>
  {
    Quantile(Deltas(s), q)
  }

  /** Whether a spacing is defined and strictly greater than `t`. */
  predicate Exceeds(d: Option<real>, t: real)
  {
    d.Some? && d.value > t
  }

  /** The number of values of `xs` strictly greater than `t`. */
  function CountAbove(xs: seq<real>, t: real): nat
  {
    if xs == [] then 0 else (if xs[0] > t then 1 else 0) + CountAbove(xs[1..], t)
  }

  // ---------------------------------------------------------------------
  // The interleaver

  /** The rows whose spacing exceeds `t`, in series order (`s.loc[diff > t]`). */
  function GapRows<V>(s: Series<V>, d: seq<Option<real>>, t: real): Series<V>
    requires |d| == |s|
  {
    if s == [] then []
    else (if Exceeds(d[0], t) then [s[0]] else []) + GapRows(s[1..], d[1..], t)
  }

  /** The marker for `x`: a null value half a minimum spacing before it. */
  function Marker<V>(x: Sample<V>, half: real): Sample<V>
  {
    Sample(x.index - half, None)
  }

  /** The copied gap rows with every value nulled and every index shifted
      back by `half`. */
  function Markers<V>(rows: Series<V>, half: real): Series<V>
  {
    seq(|rows|, k requires 0 <= k < |rows| => Marker(rows[k], half))
  }

  /** `_interleave_gaps_none`: when both statistics are defined and some
      row's spacing exceeds the threshold, the series merged with the markers
      and sorted by index; otherwise the series itself. */
  function InterleaveGapsNone<V>(s: Series<V>, q: Fraction): Series<V>
  {
    var minDiff := MinDiff(s);
    var threshold := GapThreshold(s, q);
    if minDiff.Some? && threshold.Some? then
      var rows := GapRows(s, Diff(s), threshold.value);
      if |rows| > 0 then SortBy(s + Markers(rows, minDiff.value / 2.0), IndexOf)
      else s
    else s
  }

  /** Reference definition of the merged series: every gap-closing row is
      directly preceded by its marker, and nothing else is added. */
  function InsertMarkers<V>(s: Series<V>, d: seq<Option<real>>, t: real, half: real): Series<V>
    requires |d| == |s|
  {
    if s == [] then []
    else (if Exceeds(d[0], t) then [Marker(s[0], half)] else []) + [s[0]]
         + InsertMarkers(s[1..], d[1..], t, half)
  }

  /** The rows of `out` whose index is in `idx`, in order. */
  function KeepIndices<V>(out: Series<V>, idx: set<real>): Series<V>
  {
    if out == [] then []
    else (if out[0].index in idx then [out[0]] else []) + KeepIndices(out[1..], idx)
  }

  // ---------------------------------------------------------------------
  // Facts about the spacings

  /** The first row is never selected as a gap row, whatever the threshold:
      it has no spacing, and on a strictly increasing series no other row
      equals it. */
  lemma FirstRowNeverGap<V>(s: Series<V>, t: real)
    requires StrictlyIncreasing(s) && |s| > 0
    ensures s[0] !in GapRows(s, Diff(s), t)
  {
    var rows := GapRows(s, Diff(s), t);
    GapRowsAreBoundaries(s, Diff(s), t);
    forall k | 0 <= k < |rows| ensures rows[k] != s[0] {
      var i :| 0 <= i < |s| && Exceeds(Diff(s)[i], t) && rows[k] == s[i];
      assert 1 <= i;
      assert IndexOf(s[0]) < IndexOf(s[i]);
    }
  }

  /** The defined part of a sequence whose entries past the first are all
      defined is that tail's values. */
  lemma {:induction false} DefinedAllSome(d: seq<Option<real>>)
    requires forall i :: 0 <= i < |d| ==> d[i].Some?
    ensures |Defined(d)| == |d|
    ensures forall k :: 0 <= k < |d| ==> Defined(d)[k] == d[k].value
  {
    if d != [] {
      DefinedAllSome(d[1..]);
    }
  }

  /** The spacings are the index differences of consecutive rows, one fewer
      than the rows. */
  lemma DeltasAt<V>(s: Series<V>)
    requires |s| > 0
    ensures |Deltas(s)| == |s| - 1
    ensures forall k :: 0 <= k < |s| - 1 ==> Deltas(s)[k] == s[k + 1].index - s[k].index
  {
    var d := Diff(s);
    assert d == [d[0]] + d[1..];
    DefinedAllSome(d[1..]);
  }

  /** On a strictly increasing series every spacing is positive, and so is
      the minimum spacing, which lies at or below the threshold. */
  lemma StatisticsOfIncreasing<V>(s: Series<V>, q: Fraction)
    requires StrictlyIncreasing(s) && |s| >= 2
    ensures MinDiff(s).Some? && GapThreshold(s, q).Some?
    ensures 0.0 < MinDiff(s).value <= GapThreshold(s, q).value
  {
    DeltasAt(s);
    var xs := Deltas(s);
    QuantileZeroIsMinimum(xs);
    QuantileWithinRange(xs, q);
    var k :| 0 <= k < |xs| && xs[k] == MinDiff(s).value;
    assert IndexOf(s[k]) < IndexOf(s[k + 1]);
  }

  /** The minimum spacing is at most the threshold, and the threshold is at
      most the largest spacing. */
  lemma ThresholdBetweenMinAndMax<V>(s: Series<V>, q: Fraction)
    requires |s| >= 2
    ensures MinDiff(s).Some? && GapThreshold(s, q).Some?
    ensures MinDiff(s).value <= GapThreshold(s, q).value
    ensures exists k :: 0 <= k < |s| - 1 && GapThreshold(s, q).value <= s[k + 1].index - s[k].index
  {
    DeltasAt(s);
    QuantileWithinRange(Deltas(s), q);
    var j :| 0 <= j < |Deltas(s)| && GapThreshold(s, q).value <= Deltas(s)[j];
    assert Deltas(s)[j] == s[j + 1].index - s[j].index;
  }

  /** The gap rows are as many as the spacings above the threshold. */
  lemma {:induction false} GapRowsCount<V>(s: Series<V>, d: seq<Option<real>>, t: real)
    requires |d| == |s|
    ensures |GapRows(s, d, t)| == CountAbove(Defined(d), t)
  {
    if s != [] {
      GapRowsCount(s[1..], d[1..], t);
    }
  }

  /** Every gap row is a row whose spacing exceeds `t`. */
  lemma {:induction false} GapRowsAreBoundaries<V>(s: Series<V>, d: seq<Option<real>>, t: real)
    requires |d| == |s|
    ensures forall k :: 0 <= k < |GapRows(s, d, t)| ==>
      exists i :: 0 <= i < |s| && Exceeds(d[i], t) && GapRows(s, d, t)[k] == s[i]
  {
    if s != [] {
      GapRowsAreBoundaries(s[1..], d[1..], t);
      var head := if Exceeds(d[0], t) then [s[0]] else [];
      var tailRows := GapRows(s[1..], d[1..], t);
      var rows := GapRows(s, d, t);
      assert rows == head + tailRows;
      forall k | 0 <= k < |rows|
        ensures exists i :: 0 <= i < |s| && Exceeds(d[i], t) && rows[k] == s[i]
      {
        if k < |head| {
          assert Exceeds(d[0], t) && rows[k] == s[0];
        } else {
          assert rows[k] == tailRows[k - |head|];
          var i :| 0 <= i < |s[1..]| && Exceeds(d[1..][i], t) && tailRows[k - |head|] == s[1..][i];
          assert Exceeds(d[i + 1], t) && rows[k] == s[i + 1];
        }
      }
      assert forall k :: 0 <= k < |GapRows(s, d, t)| ==>
        exists i :: 0 <= i < |s| && Exceeds(d[i], t) && GapRows(s, d, t)[k] == s[i];
    } else {
      assert GapRows(s, d, t) == [];
    }
  }

  // ---------------------------------------------------------------------
  // The reference merge

  /** The precondition under which every marker falls strictly between a
      gap-closing row and the row before it. */
  ghost predicate Spaced<V>(s: Series<V>, d: seq<Option<real>>, t: real, half: real)
    requires |d| == |s|
  {
    0.0 < half &&
    forall i :: 0 < i < |s| && Exceeds(d[i], t) ==> s[i - 1].index < s[i].index - half
  }

  /** The reference merge holds the rows and the markers of the gap rows. */
  lemma {:induction false} InsertMarkersPermutes<V>(s: Series<V>, d: seq<Option<real>>, t: real, half: real)
    requires |d| == |s|
    ensures multiset(InsertMarkers(s, d, t, half))
         == multiset(s) + multiset(Markers(GapRows(s, d, t), half))
  {
    if s != [] {
      InsertMarkersPermutes(s[1..], d[1..], t, half);
      var rest := GapRows(s[1..], d[1..], t);
      assert s == [s[0]] + s[1..];
      if Exceeds(d[0], t) {
        assert Markers([s[0]] + rest, half) == [Marker(s[0], half)] + Markers(rest, half);
      } else {
        assert GapRows(s, d, t) == rest;
      }
    }
  }

  /** The reference merge starts with the first row's marker, if any, and
      otherwise with the first row. */
  lemma InsertMarkersHead<V>(s: Series<V>, d: seq<Option<real>>, t: real, half: real)
    requires |d| == |s| && |s| > 0
    ensures InsertMarkers(s, d, t, half)[0]
         == if Exceeds(d[0], t) then Marker(s[0], half) else s[0]
  {
  }

  /** On a strictly increasing, spaced series the reference merge is strictly
      increasing. */
  lemma {:induction false} InsertMarkersIncreasing<V>(s: Series<V>, d: seq<Option<real>>, t: real, half: real)
    requires |d| == |s| && StrictlyIncreasing(s) && Spaced(s, d, t, half)
    ensures StrictlyIncreasing(InsertMarkers(s, d, t, half))
  {
    if s != [] {
      var tail := s[1..];
      assert StrictlyIncreasing(tail) by {
        forall i, j | 0 <= i < j < |tail| ensures IndexOf(tail[i]) < IndexOf(tail[j]) {
          assert IndexOf(s[i + 1]) < IndexOf(s[j + 1]);
        }
      }
      assert Spaced(tail, d[1..], t, half) by {
        forall i | 0 < i < |tail| && Exceeds(d[1..][i], t)
          ensures tail[i - 1].index < tail[i].index - half
        {
          assert Exceeds(d[i + 1], t);
        }
      }
      InsertMarkersIncreasing(tail, d[1..], t, half);
      var rest := InsertMarkers(tail, d[1..], t, half);
      var head := (if Exceeds(d[0], t) then [Marker(s[0], half)] else []) + [s[0]];
      var out := InsertMarkers(s, d, t, half);
      assert out == head + rest;
      assert StrictlyIncreasing(head);
      if rest != [] {
        InsertMarkersHead(tail, d[1..], t, half);
        assert IndexOf(s[0]) < IndexOf(s[1]);
        assert s[0].index < rest[0].index;
        forall j | 0 <= j < |rest| ensures s[0].index < rest[j].index {
          if j > 0 {
            assert IndexOf(rest[0]) < IndexOf(rest[j]);
          }
        }
      }
      forall i, j | 0 <= i < j < |out| ensures IndexOf(out[i]) < IndexOf(out[j]) {
        if j < |head| {
          assert out[i] == head[i] && out[j] == head[j];
        } else if i < |head| {
          assert out[i] == head[i] && out[j] == rest[j - |head|];
          assert head[i].index <= s[0].index;
        } else {
          assert out[i] == rest[i - |head|] && out[j] == rest[j - |head|];
        }
      }
    }
  }

  /** Keeping the rows whose index is one of `idx` drops exactly the
      markers of the reference merge, when the rows' indices are in `idx`
      and no marker's index is. */
  lemma {:induction false} KeepIndicesDropsMarkers<V>(s: Series<V>, d: seq<Option<real>>, t: real, half: real, idx: set<real>)
    requires |d| == |s|
    requires forall i :: 0 <= i < |s| ==> s[i].index in idx
    requires forall i :: 0 <= i < |s| && Exceeds(d[i], t) ==> s[i].index - half !in idx
    ensures KeepIndices(InsertMarkers(s, d, t, half), idx) == s
  {
    if s != [] {
      var rest := InsertMarkers(s[1..], d[1..], t, half);
      KeepIndicesDropsMarkers(s[1..], d[1..], t, half, idx);
      var head := (if Exceeds(d[0], t) then [Marker(s[0], half)] else []) + [s[0]];
      KeepIndicesAppend(head, rest, idx);
      if Exceeds(d[0], t) {
        assert head == [Marker(s[0], half)] + [s[0]];
        KeepIndicesAppend([Marker(s[0], half)], [s[0]], idx);
      }
      assert s == [s[0]] + s[1..];
    }
  }

  /** Keeping indices distributes over concatenation. */
  lemma {:induction false} KeepIndicesAppend<V>(a: Series<V>, b: Series<V>, idx: set<real>)
    ensures KeepIndices(a + b, idx) == KeepIndices(a, idx) + KeepIndices(b, idx)
  {
    if a != [] {
      assert (a + b)[1..] == a[1..] + b;
      KeepIndicesAppend(a[1..], b, idx);
    } else {
      assert a + b == b;
    }
  }

  // ---------------------------------------------------------------------
  // Properties of the interleaver

  /** With no spacing above the threshold the series comes back unchanged. */
  lemma NoGapUnchanged<V>(s: Series<V>, q: Fraction)
    requires GapThreshold(s, q).Some? ==> CountAbove(Deltas(s), GapThreshold(s, q).value) == 0
    ensures InterleaveGapsNone(s, q) == s
  {
    if GapThreshold(s, q).Some? {
      GapRowsCount(s, Diff(s), GapThreshold(s, q).value);
    }
  }

  /** A series of at most two rows comes back unchanged: a single spacing is
      its own quantile and never exceeds itself. */
  lemma ShortSeriesUnchanged<V>(s: Series<V>, q: Fraction)
    requires |s| <= 2
    ensures InterleaveGapsNone(s, q) == s
  {
    if |s| == 2 {
      DeltasAt(s);
      var c := s[1].index - s[0].index;
      assert Deltas(s) == [c];
      QuantileOfConstant(Deltas(s), q, c);
      assert CountAbove(Deltas(s), c) == 0 by {
        assert Deltas(s)[1..] == [];
      }
    } else if |s| == 1 {
      DeltasAt(s);
    }
    NoGapUnchanged(s, q);
  }

  /** Not one spacing exceeds a threshold that equals all of them. */
  lemma {:induction false} CountAboveConstant(xs: seq<real>, c: real)
    requires forall k :: 0 <= k < |xs| ==> xs[k] == c
    ensures CountAbove(xs, c) == 0
  {
    if xs != [] {
      CountAboveConstant(xs[1..], c);
    }
  }

  /** A series whose spacings are all equal comes back unchanged. */
  lemma EvenSpacingUnchanged<V>(s: Series<V>, q: Fraction, c: real)
    requires |s| > 0
    requires forall k :: 0 <= k < |s| - 1 ==> s[k + 1].index - s[k].index == c
    ensures InterleaveGapsNone(s, q) == s
  {
    DeltasAt(s);
    var xs := Deltas(s);
    forall k | 0 <= k < |xs| ensures xs[k] == c {
      assert xs[k] == s[k + 1].index - s[k].index;
    }
    if |s| >= 2 {
      QuantileOfConstant(xs, q, c);
      CountAboveConstant(xs, c);
    }
    NoGapUnchanged(s, q);
  }

  /** The markers of a call: the gap rows, nulled and shifted back by half
      the minimum spacing. */
  function GapMarkers<V>(s: Series<V>, q: Fraction): Series<V>
    requires MinDiff(s).Some? && GapThreshold(s, q).Some?
  {
    Markers(GapRows(s, Diff(s), GapThreshold(s, q).value), MinDiff(s).value / 2.0)
  }

  /** Row `i` closes a gap: its spacing from row `i - 1` exceeds `t`. */
  ghost predicate ClosesGap<V>(s: Series<V>, t: real, i: int)
  {
    1 <= i < |s| && s[i].index - s[i - 1].index > t
  }

  /** Every marker is null and sits half a minimum spacing before a row
      that closes a gap. */
  lemma MarkerPlacement<V>(s: Series<V>, q: Fraction, k: nat)
    requires MinDiff(s).Some? && GapThreshold(s, q).Some?
    requires k < |GapMarkers(s, q)|
    ensures GapMarkers(s, q)[k].value == None
    ensures exists i :: (ClosesGap(s, GapThreshold(s, q).value, i)
      && GapMarkers(s, q)[k].index == s[i].index - MinDiff(s).value / 2.0)
  {
    var t := GapThreshold(s, q).value;
    GapRowsAreBoundaries(s, Diff(s), t);
    var rows := GapRows(s, Diff(s), t);
    assert k < |rows|;
    var i :| 0 <= i < |s| && Exceeds(Diff(s)[i], t) && rows[k] == s[i];
    assert ClosesGap(s, t, i);
  }

  /** On a strictly increasing series every marker lies strictly between the
      row that closes its gap and the row before it, so no marker shares an
      index with an original row. */
  lemma MarkerInsideGap<V>(s: Series<V>, q: Fraction, k: nat)
    requires StrictlyIncreasing(s)
    requires MinDiff(s).Some? && GapThreshold(s, q).Some?
    requires k < |GapMarkers(s, q)|
    ensures exists i :: (ClosesGap(s, GapThreshold(s, q).value, i)
      && s[i - 1].index < GapMarkers(s, q)[k].index < s[i].index)
  {
    var t := GapThreshold(s, q).value;
    DeltasAt(s);
    IncreasingIsSpaced(s, q);
    GapRowsAreBoundaries(s, Diff(s), t);
    var rows := GapRows(s, Diff(s), t);
    assert k < |rows|;
    var i :| 0 <= i < |s| && Exceeds(Diff(s)[i], t) && rows[k] == s[i];
    assert ClosesGap(s, t, i);
  }

  /** On a strictly increasing series of at least two rows, the spacing
      statistics place every marker strictly inside its gap. */
  lemma IncreasingIsSpaced<V>(s: Series<V>, q: Fraction)
    requires StrictlyIncreasing(s) && |s| >= 2
    ensures MinDiff(s).Some? && GapThreshold(s, q).Some?
    ensures Spaced(s, Diff(s), GapThreshold(s, q).value, MinDiff(s).value / 2.0)
  {
    StatisticsOfIncreasing(s, q);
    var t, half := GapThreshold(s, q).value, MinDiff(s).value / 2.0;
    assert 0.0 < half < t;
    forall i | 0 < i < |s| && Exceeds(Diff(s)[i], t)
      ensures s[i - 1].index < s[i].index - half
    {
      DiffAt(s, i);
    }
  }

  /** The spacing of row `i >= 1` is its index minus the previous one. */
  lemma DiffAt<V>(s: Series<V>, i: int)
    requires 0 < i < |s|
    ensures Diff(s)[i] == Some(s[i].index - s[i - 1].index)
  {
  }

  /** On a strictly increasing series the sorted merge is the reference
      merge: every gap-closing row directly preceded by its marker. */
  lemma InterleaveIsInsertMarkers<V>(s: Series<V>, q: Fraction)
    requires StrictlyIncreasing(s) && |s| >= 2
    ensures MinDiff(s).Some? && GapThreshold(s, q).Some?
    ensures InterleaveGapsNone(s, q)
         == InsertMarkers(s, Diff(s), GapThreshold(s, q).value, MinDiff(s).value / 2.0)
  {
    IncreasingIsSpaced(s, q);
    var d, t, half := Diff(s), GapThreshold(s, q).value, MinDiff(s).value / 2.0;
    var rows := GapRows(s, d, t);
    var reference := InsertMarkers(s, d, t, half);
    InsertMarkersPermutes(s, d, t, half);
    InsertMarkersIncreasing(s, d, t, half);
    if |rows| > 0 {
      var merged := s + Markers(rows, half);
      SortByCorrect(merged, IndexOf);
      SortedPermutationUnique(SortBy(merged, IndexOf), reference, IndexOf);
    } else {
      NoMarkersInserted(s, d, t, half);
    }
  }

  /** With no gap rows the reference merge is the series itself. */
  lemma {:induction false} NoMarkersInserted<V>(s: Series<V>, d: seq<Option<real>>, t: real, half: real)
    requires |d| == |s| && |GapRows(s, d, t)| == 0
    ensures InsertMarkers(s, d, t, half) == s
  {
    if s != [] {
      NoMarkersInserted(s[1..], d[1..], t, half);
      assert s == [s[0]] + s[1..];
    }
  }

  /** The output is a permutation of the series followed by its markers,
      sorted by index, and one row longer than the series per spacing above
      the threshold. */
  lemma InterleaveContents<V>(s: Series<V>, q: Fraction)
    requires MinDiff(s).Some? && GapThreshold(s, q).Some?
    ensures var t := GapThreshold(s, q).value;
      var out := InterleaveGapsNone(s, q);
      multiset(out) == multiset(s) + multiset(GapMarkers(s, q)) &&
      |out| == |s| + CountAbove(Deltas(s), t)
  {
    var t := GapThreshold(s, q).value;
    var rows := GapRows(s, Diff(s), t);
    GapRowsCount(s, Diff(s), t);
    if |rows| > 0 {
      SortByCorrect(s + Markers(rows, MinDiff(s).value / 2.0), IndexOf);
    }
    assert |multiset(InterleaveGapsNone(s, q))| == |InterleaveGapsNone(s, q)|;
  }

  /** A series sorted by index stays sorted. */
  lemma InterleaveSorted<V>(s: Series<V>, q: Fraction)
    requires Sorted(s)
    ensures Sorted(InterleaveGapsNone(s, q))
  {
    var minDiff, threshold := MinDiff(s), GapThreshold(s, q);
    if minDiff.Some? && threshold.Some? {
      var rows := GapRows(s, Diff(s), threshold.value);
      if |rows| > 0 {
        var merged := s + Markers(rows, minDiff.value / 2.0);
        assert InterleaveGapsNone(s, q) == SortBy(merged, IndexOf);
        SortByIndexSorted(merged);
      }
    }
  }

  /** Sorting by index yields a series sorted by index. */
  lemma SortByIndexSorted<V>(xs: Series<V>)
    ensures Sorted(SortBy(xs, IndexOf))
  {
    SortByCorrect(xs, IndexOf);
  }

  /** A strictly increasing series stays strictly increasing: no marker
      lands on an original index or on another marker. */
  lemma InterleaveStrictlyIncreasing<V>(s: Series<V>, q: Fraction)
    requires StrictlyIncreasing(s)
    ensures StrictlyIncreasing(InterleaveGapsNone(s, q))
  {
    if |s| >= 2 {
      InterleaveIsInsertMarkers(s, q);
      IncreasingIsSpaced(s, q);
      InsertMarkersIncreasing(s, Diff(s), GapThreshold(s, q).value, MinDiff(s).value / 2.0);
    } else {
      ShortSeriesUnchanged(s, q);
    }
  }

  /** Removing the markers (keeping only rows at one of the series' own
      indices) gives back the original rows in their original order. */
  lemma InterleaveKeepsOriginals<V>(s: Series<V>, q: Fraction)
    requires StrictlyIncreasing(s)
    ensures KeepIndices(InterleaveGapsNone(s, q), IndexSet(s)) == s
  {
    if |s| >= 2 {
      InterleaveIsInsertMarkers(s, q);
      IncreasingIsSpaced(s, q);
      var d, t, half := Diff(s), GapThreshold(s, q).value, MinDiff(s).value / 2.0;
      forall i | 0 <= i < |s| && Exceeds(d[i], t) ensures s[i].index - half !in IndexSet(s) {
        BetweenNeighboursNotAnIndex(s, i, s[i].index - half);
      }
      KeepIndicesDropsMarkers(s, d, t, half, IndexSet(s));
    } else {
      ShortSeriesUnchanged(s, q);
      KeepAllIndices(s);
    }
  }

  /** A value strictly between two neighbouring indices of a strictly
      increasing series is none of its indices. */
  lemma BetweenNeighboursNotAnIndex<V>(s: Series<V>, i: int, x: real)
    requires StrictlyIncreasing(s) && 1 <= i < |s| && s[i - 1].index < x < s[i].index
    ensures x !in IndexSet(s)
  {
    forall j | 0 <= j < |s| ensures s[j].index != x {
      if j < i - 1 { assert IndexOf(s[j]) < IndexOf(s[i - 1]); }
      if j > i { assert IndexOf(s[i]) < IndexOf(s[j]); }
    }
  }

  /** Keeping the series' own indices keeps every row. */
  lemma {:induction false} KeepAllIndices<V>(s: Series<V>)
    ensures KeepIndices(s, IndexSet(s)) == s
  {
    KeepWithin(s, IndexSet(s));
  }

  lemma {:induction false} KeepWithin<V>(s: Series<V>, idx: set<real>)
    requires forall i :: 0 <= i < |s| ==> s[i].index in idx
    ensures KeepIndices(s, idx) == s
  {
    if s != [] {
      KeepWithin(s[1..], idx);
    }
  }
}
