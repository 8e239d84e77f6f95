/** The empirical quantile of a set of real numbers, with linear interpolation
    between order statistics: the sorted values are `y[0] <= ... <= y[m-1]`,
    the quantile `q` sits at position `h = (m - 1) * q`, and the result is
    `y[lo] + (h - lo) * (y[lo + 1] - y[lo])` with `lo` the floor of `h`. An
    empty input has no quantile. */
module Quantiles {
  import opened Wrappers
  import opened Sorting

  /** A quantile level, between 0 and 1 inclusive. */
  type Fraction = q: real | 0.0 <= q <= 1.0 witness 0.0

  /** The identity key, to sort reals by their own value. */
  function Id(x: real): real { x }

  /** The fractional position of quantile `q` among `m` sorted values. */
  function Position(m: nat, q: Fraction): (h: real)
    requires m > 0
    ensures 0.0 <= h <= (m - 1) as real
    ensures 0 <= h.Floor < m
  {
    var top := (m - 1) as real;
    assert top * q <= top * 1.0;
    top * q
  }

  /** The value at fractional position `h` of the sorted `ys`: linear
      interpolation between `ys[lo]` and `ys[lo + 1]`, or `ys[lo]` itself when
      `lo` is the last position. */
  function Interpolate(ys: seq<real>, h: real): real
    requires 0.0 <= h && 0 <= h.Floor < |ys|
  {
    var lo := h.Floor;
    if lo + 1 < |ys| then ys[lo] + (h - lo as real) * (ys[lo + 1] - ys[lo])
    else ys[lo]
  }

  /** The `q`-quantile of `xs`, or None when `xs` is empty. */
  function Quantile(xs: seq<real>, q: Fraction): (r: Option<real>)
    ensures r.Some? <==> |xs| > 0
  {
    if xs == [] then None
    else
      SortByCorrect(xs, Id);
      assert |SortBy(xs, Id)| == |multiset(xs)| == |xs|;
      Some(Interpolate(SortBy(xs, Id), Position(|xs|, q)))
  }

  /** Every sorted value is one of the inputs, and every input is a sorted value. */
  lemma SortedValuesAreInputs(xs: seq<real>)
    ensures |SortBy(xs, Id)| == |xs|
    ensures SortedBy(SortBy(xs, Id), Id)
    ensures forall k :: 0 <= k < |xs| ==> SortBy(xs, Id)[k] in xs
    ensures forall i :: 0 <= i < |xs| ==> xs[i] in SortBy(xs, Id)
  {
    SortByCorrect(xs, Id);
    var ys := SortBy(xs, Id);
    assert |ys| == |multiset(ys)| == |xs|;
    forall k | 0 <= k < |xs| ensures ys[k] in xs {
      assert ys[k] in multiset(ys);
    }
    forall i | 0 <= i < |xs| ensures xs[i] in ys {
      assert xs[i] in multiset(xs);
    }
  }

  /** The interpolated value lies between the two order statistics it joins. */
  lemma InterpolationBetween(a: real, b: real, f: real)
    requires a <= b && 0.0 <= f <= 1.0
    ensures a <= a + f * (b - a) <= b
  {
    assert f * (b - a) <= 1.0 * (b - a);
  }

  /** On sorted values the interpolated value lies between the first and
      the last of them. */
  lemma InterpolateWithinSorted(ys: seq<real>, h: real)
    requires 0.0 <= h && 0 <= h.Floor < |ys| && SortedBy(ys, Id)
    ensures ys[0] <= Interpolate(ys, h) <= ys[|ys| - 1]
  {
    var lo := h.Floor;
    assert Id(ys[0]) <= Id(ys[lo]);
    if lo + 1 < |ys| {
      assert Id(ys[lo]) <= Id(ys[lo + 1]) <= Id(ys[|ys| - 1]);
      var f := h - lo as real;
      assert 0.0 <= f <= 1.0;
      assert Interpolate(ys, h) == ys[lo] + f * (ys[lo + 1] - ys[lo]);
      InterpolationBetween(ys[lo], ys[lo + 1], f);
    } else {
      assert lo == |ys| - 1;
    }
  }

  /** The quantile lies between the smallest and the largest order statistic. */
  lemma QuantileBetweenOrderStatistics(xs: seq<real>, q: Fraction)
    requires |xs| > 0
    ensures var ys := SortBy(xs, Id);
      |ys| == |xs| && ys[0] <= Quantile(xs, q).value <= ys[|xs| - 1]
  {
    SortedValuesAreInputs(xs);
    InterpolateWithinSorted(SortBy(xs, Id), Position(|xs|, q));
  }

  /** The 0-quantile is the minimum: one of the inputs and below all of them. */
  lemma QuantileZeroIsMinimum(xs: seq<real>)
    requires |xs| > 0
    ensures Quantile(xs, 0.0).value in xs
    ensures forall i :: 0 <= i < |xs| ==> Quantile(xs, 0.0).value <= xs[i]
  {
    SortedValuesAreInputs(xs);
    var ys := SortBy(xs, Id);
    assert Position(|xs|, 0.0) == 0.0;
    assert Quantile(xs, 0.0).value == ys[0];
    forall i | 0 <= i < |xs| ensures ys[0] <= xs[i] {
      var k :| 0 <= k < |ys| && ys[k] == xs[i];
      assert Id(ys[0]) <= Id(ys[k]);
    }
  }

  /** Every quantile lies at or above the minimum and at or below some input,
      that is, at or below the maximum. */
  lemma {:induction false} QuantileWithinRange(xs: seq<real>, q: Fraction)
    requires |xs| > 0
    ensures Quantile(xs, 0.0).value <= Quantile(xs, q).value
    ensures exists j :: 0 <= j < |xs| && Quantile(xs, q).value <= xs[j]
  {
    SortedValuesAreInputs(xs);
    QuantileBetweenOrderStatistics(xs, q);
    QuantileBetweenOrderStatistics(xs, 0.0);
    var ys := SortBy(xs, Id);
    assert Quantile(xs, 0.0).value <= ys[0] by {
      QuantileZeroIsMinimum(xs);
      var k :| 0 <= k < |xs| && xs[k] == ys[0];
    }
    var j :| 0 <= j < |xs| && xs[j] == ys[|xs| - 1];
  }

  /** When every input equals `c`, every quantile is `c`. */
  lemma QuantileOfConstant(xs: seq<real>, q: Fraction, c: real)
    requires |xs| > 0 && forall i :: 0 <= i < |xs| ==> xs[i] == c
    ensures Quantile(xs, q) == Some(c)
  {
    SortedValuesAreInputs(xs);
    var ys := SortBy(xs, Id);
    forall k | 0 <= k < |ys| ensures ys[k] == c {
      var i :| 0 <= i < |xs| && xs[i] == ys[k];
    }
    var h := Position(|xs|, q);
    var lo := h.Floor;
    if lo + 1 < |ys| {
      assert ys[lo] == c && ys[lo + 1] == c;
      var f := h - lo as real;
      assert Interpolate(ys, h) == c + f * (c - c);
    } else {
      assert ys[lo] == c;
    }
  }
}
