/** The downsampler interface (`AbstractSeriesDownsampler`): an immutable
    configuration, the dtype allow-list check, and `downsample`, which returns
    an empty series untouched, checks the dtype, calls the reduction strategy
    only when the series is longer than the requested size, and then
    interleaves gap markers when configured to.

    The reduction strategy (the abstract `_downsample`) and the regular
    expression engine are not part of this model: they are passed in as
    functions, `reduce(series, nOut)` and `matches(pattern, dtypeName)`, the
    latter standing for a match anchored at the start of the dtype name. */
module ResamplingInterface {
  import opened Wrappers
  import opened Quantiles
  import opened Gaps

  /** The error raised when no pattern matches: names the dtype and the
      configured patterns. */
  datatype DtypeError = UnsupportedDtype(dtype: string, patterns: seq<string>)

  /** The configuration set once by the constructor and only read afterwards:
      whether to interleave gaps (default true), the dtype allow-list
      (default none, meaning every dtype is accepted), and the gap quantile,
      which the constructor fixes at 0.95. */
  datatype Config = Config(interleaveGaps: bool := true, dtypeRegexList: Option<seq<string>> := None)
  {
    const maxGapQ: Fraction := 0.95
  }

  /** Whether the dtype check accepts `dtype`: no allow-list, or some pattern
      of it matches. */
  predicate DtypeSupported(patterns: Option<seq<string>>, dtype: string, matches: (string, string) -> bool)
  {
    patterns.None? || exists i :: 0 <= i < |patterns.value| && matches(patterns.value[i], dtype)
  }

  /** `_supports_dtype`: passes when there is no allow-list; otherwise tries
      the patterns in order and passes at the first that matches, and fails
      naming the dtype and the patterns when none does. */
  method SupportsDtype(cfg: Config, dtype: string, matches: (string, string) -> bool)
    returns (o: Outcome<DtypeError>)
    ensures o.Pass? <==> DtypeSupported(cfg.dtypeRegexList, dtype, matches)
    ensures o.Fail? ==>
      cfg.dtypeRegexList.Some? && o.error == UnsupportedDtype(dtype, cfg.dtypeRegexList.value)
  {
    if cfg.dtypeRegexList.None? {
      return Pass;
    }
    var patterns := cfg.dtypeRegexList.value;
    var i := 0;
    while i < |patterns|
      invariant 0 <= i <= |patterns|
      invariant forall k :: 0 <= k < i ==> !matches(patterns[k], dtype)
    {
      if matches(patterns[i], dtype) {
        return Pass;
      }
      i := i + 1;
    }
    return Fail(UnsupportedDtype(dtype, patterns));
  }

  /** What `downsample` returns for series `s` of dtype `dtype`. */
  function DownsampleResult<V>(cfg: Config, s: Series<V>, dtype: string, nOut: int,
                               reduce: (Series<V>, int) -> Series<V>,
                               matches: (string, string) -> bool): Result<Series<V>, DtypeError>
  {
    if s == [] then Success(s)
    else if !DtypeSupported(cfg.dtypeRegexList, dtype, matches) then
      Failure(UnsupportedDtype(dtype, cfg.dtypeRegexList.value))
    else
      var reduced := if |s| > nOut then reduce(s, nOut) else s;
      Success(if cfg.interleaveGaps then InterleaveGapsNone(reduced, cfg.maxGapQ) else reduced)
  }

  /** `downsample`: rebinds the series step by step through the checks, the
      reduction and the gap interleaving. */
  method Downsample<V>(cfg: Config, s: Series<V>, dtype: string, nOut: int,
                       reduce: (Series<V>, int) -> Series<V>,
                       matches: (string, string) -> bool)
    returns (r: Result<Series<V>, DtypeError>)
    ensures r == DownsampleResult(cfg, s, dtype, nOut, reduce, matches)
  {
    if s == [] {
      return Success(s);
    }
    var check := SupportsDtype(cfg, dtype, matches);
    if check.Fail? {
      return Failure(check.error);
    }
    var out := s;
    if |out| > nOut {
      out := reduce(out, nOut);
    }
    if cfg.interleaveGaps {
      out := InterleaveGapsNone(out, cfg.maxGapQ);
    }
    return Success(out);
  }

  // ---------------------------------------------------------------------
  // Properties of downsample

  /** An empty series comes back unchanged whatever the configuration, the
      dtype and the pattern matcher: the dtype check is not consulted. */
  lemma EmptyReturnedUnchanged<V>(cfg: Config, s: Series<V>, dtype: string, nOut: int,
                                  reduce: (Series<V>, int) -> Series<V>,
                                  matches: (string, string) -> bool)
    requires s == []
    ensures DownsampleResult(cfg, s, dtype, nOut, reduce, matches) == Success(s)
  {
  }

  /** A non-empty series fails exactly when its dtype is not supported, and
      the error names the dtype and the configured patterns. */
  lemma FailsIffUnsupported<V>(cfg: Config, s: Series<V>, dtype: string, nOut: int,
                               reduce: (Series<V>, int) -> Series<V>,
                               matches: (string, string) -> bool)
    requires s != []
    ensures DownsampleResult(cfg, s, dtype, nOut, reduce, matches).Failure?
        <==> !DtypeSupported(cfg.dtypeRegexList, dtype, matches)
    ensures DownsampleResult(cfg, s, dtype, nOut, reduce, matches).Failure? ==>
      cfg.dtypeRegexList.Some? &&
      DownsampleResult(cfg, s, dtype, nOut, reduce, matches).error
        == UnsupportedDtype(dtype, cfg.dtypeRegexList.value)
  {
  }

  /** Without an allow-list every dtype is accepted; with an empty one every
      dtype is rejected, so every non-empty series fails. */
  lemma AllowListExtremes<V>(cfg: Config, s: Series<V>, dtype: string, nOut: int,
                             reduce: (Series<V>, int) -> Series<V>,
                             matches: (string, string) -> bool)
    requires s != []
    ensures cfg.dtypeRegexList.None? ==> DownsampleResult(cfg, s, dtype, nOut, reduce, matches).Success?
    ensures cfg.dtypeRegexList == Some([]) ==>
      DownsampleResult(cfg, s, dtype, nOut, reduce, matches) == Failure(UnsupportedDtype(dtype, []))
  {
  }

  /** A series no longer than `nOut` never reaches the reduction: the result
      is the same whatever the strategy, and the series that reaches the gap
      step is the input itself. */
  lemma NoReductionWhenShortEnough<V>(cfg: Config, s: Series<V>, dtype: string, nOut: int,
                                      reduce: (Series<V>, int) -> Series<V>,
                                      other: (Series<V>, int) -> Series<V>,
                                      matches: (string, string) -> bool)
    requires |s| <= nOut
    ensures DownsampleResult(cfg, s, dtype, nOut, reduce, matches)
         == DownsampleResult(cfg, s, dtype, nOut, other, matches)
    ensures s != [] && DtypeSupported(cfg.dtypeRegexList, dtype, matches) ==>
      DownsampleResult(cfg, s, dtype, nOut, reduce, matches)
        == Success(if cfg.interleaveGaps then InterleaveGapsNone(s, 0.95) else s)
  {
  }

  /** A supported series longer than `nOut` is reduced, and the strategy's
      output is what reaches the gap step. */
  lemma ReductionWhenTooLong<V>(cfg: Config, s: Series<V>, dtype: string, nOut: int,
                                reduce: (Series<V>, int) -> Series<V>,
                                matches: (string, string) -> bool)
    requires |s| > nOut && s != [] && DtypeSupported(cfg.dtypeRegexList, dtype, matches)
    ensures DownsampleResult(cfg, s, dtype, nOut, reduce, matches)
         == Success(if cfg.interleaveGaps then InterleaveGapsNone(reduce(s, nOut), 0.95)
                    else reduce(s, nOut))
  {
  }

  /** With gap interleaving off nothing is added: the result is the
      (possibly reduced) series. */
  lemma NoMarkersWhenDisabled<V>(cfg: Config, s: Series<V>, dtype: string, nOut: int,
                                 reduce: (Series<V>, int) -> Series<V>,
                                 matches: (string, string) -> bool)
    requires !cfg.interleaveGaps && s != [] && DtypeSupported(cfg.dtypeRegexList, dtype, matches)
    ensures DownsampleResult(cfg, s, dtype, nOut, reduce, matches)
         == Success(if |s| > nOut then reduce(s, nOut) else s)
  {
  }

  /** With gap interleaving off and a strategy that keeps to `nOut` rows,
      downsampling its own output again changes nothing. */
  lemma IdempotentWithoutGaps<V>(cfg: Config, s: Series<V>, dtype: string, nOut: int,
                                 reduce: (Series<V>, int) -> Series<V>,
                                 matches: (string, string) -> bool)
    requires !cfg.interleaveGaps && DtypeSupported(cfg.dtypeRegexList, dtype, matches)
    requires |s| > nOut ==> |reduce(s, nOut)| <= nOut
    ensures var first := DownsampleResult(cfg, s, dtype, nOut, reduce, matches);
      first.Success? && DownsampleResult(cfg, first.value, dtype, nOut, reduce, matches) == first
  {
  }

  /** A strictly increasing, supported series that needs no reduction comes
      back strictly increasing, with every original row in its original
      order once the markers are removed; with gap interleaving on and two
      or more rows, it is one row longer per spacing above the threshold. */
  lemma ShortSeriesKeepsRows<V>(cfg: Config, s: Series<V>, dtype: string, nOut: int,
                                reduce: (Series<V>, int) -> Series<V>,
                                matches: (string, string) -> bool)
    requires StrictlyIncreasing(s) && |s| <= nOut
    requires DtypeSupported(cfg.dtypeRegexList, dtype, matches)
    ensures var r := DownsampleResult(cfg, s, dtype, nOut, reduce, matches);
      r.Success? && StrictlyIncreasing(r.value) && KeepIndices(r.value, IndexSet(s)) == s
    ensures cfg.interleaveGaps && |s| >= 2 ==>
      GapThreshold(s, 0.95).Some? &&
      |DownsampleResult(cfg, s, dtype, nOut, reduce, matches).value|
        == |s| + CountAbove(Deltas(s), GapThreshold(s, 0.95).value)
  {
    if cfg.interleaveGaps {
      InterleaveStrictlyIncreasing(s, cfg.maxGapQ);
      InterleaveKeepsOriginals(s, cfg.maxGapQ);
      if |s| >= 2 {
        ThresholdBetweenMinAndMax(s, cfg.maxGapQ);
        InterleaveContents(s, cfg.maxGapQ);
      }
    } else {
      KeepAllIndices(s);
    }
  }
}
