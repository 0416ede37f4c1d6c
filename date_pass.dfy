/** The processing pass over the collected timestamps: sort them, split each
    into its date and time-of-day coordinates and, when heat-mapping is on,
    give each one its message density. */
module DatePass {
  import opened Timestamps
  import opened Sorting
  import opened Density

  /** The user parameters the pass reads: the window length and the time gap
      (both in seconds) and whether densities are computed at all. */
  datatype Config = Config(windowSize: int, timeGap: int, heatmapping: bool)

  /** Runs the pass. `dates` is the sorted collection; `days`, `times` and
      `messageDensity` get one entry per timestamp, index-aligned with it, and
      `messageDensity` stays empty when heat-mapping is off. */
  method ProcessDates(ingested: seq<Timestamp>, cfg: Config)
    returns (dates: seq<Timestamp>, days: seq<Timestamp>, times: seq<Timestamp>, messageDensity: seq<int>)
    requires cfg.timeGap != 0
    ensures Ascending(dates) && multiset(dates) == multiset(ingested)
    ensures |days| == |dates| && |times| == |dates|
    ensures forall i :: 0 <= i < |dates| ==> days[i] == DateOnly(dates[i]) && times[i] == TimeOnly(dates[i])
    ensures |messageDensity| == if cfg.heatmapping then |dates| else 0
    ensures cfg.heatmapping ==>
              forall i :: 0 <= i < |dates| ==>
                messageDensity[i] == WindowDensity(dates, i, cfg.windowSize, cfg.timeGap)
  {
    dates := SortAscending(ingested);
    days, times, messageDensity := [], [], [];
    var i := 0;
    while i < |dates|
      invariant 0 <= i <= |dates|
      invariant |days| == i && |times| == i
      invariant forall k :: 0 <= k < i ==> days[k] == DateOnly(dates[k]) && times[k] == TimeOnly(dates[k])
      invariant |messageDensity| == if cfg.heatmapping then i else 0
      invariant cfg.heatmapping ==>
                  forall k :: 0 <= k < i ==>
                    messageDensity[k] == WindowDensity(dates, k, cfg.windowSize, cfg.timeGap)
    {
      var date := dates[i];
      days := days + [DateOnly(date)];
      times := times + [TimeOnly(date)];
      if cfg.heatmapping {
        messageDensity := AppendDensity(dates, i, cfg.windowSize, cfg.timeGap, messageDensity);
      }
      i := i + 1;
    }
  }

  /** Appends the density of `dates[i]` to `messageDensity`. The entry starts
      at 1 and grows by a forward scan over later timestamps strictly before
      `date + windowSize` and then a backward scan over earlier timestamps
      strictly after `date - windowSize`; both scans stop once the entry is no
      longer below `windowSize / timeGap`. */
  method AppendDensity(dates: seq<Timestamp>, i: int, windowSize: int, timeGap: int, messageDensity: seq<int>)
    returns (updated: seq<int>)
    requires Ascending(dates) && 0 <= i < |dates| && |messageDensity| == i
    requires timeGap != 0
    ensures updated == messageDensity + [WindowDensity(dates, i, windowSize, timeGap)]
  {
    var date := dates[i];
    var window := Seconds(windowSize);
    ghost var cap := Cap(windowSize, timeGap);
    updated := messageDensity + [1];
    var j := 1;
    while i + j < |dates| && dates[i + j] < date + window && BelowCap(updated[i], windowSize, timeGap)
      invariant 1 <= j <= |dates| - i
      invariant |updated| == i + 1 && updated[..i] == messageDensity && updated[i] == j
      invariant j <= cap
      invariant forall k :: i < k < i + j ==> dates[k] < date + window
    {
      BelowCapIff(j, windowSize, timeGap);
      updated := updated[i := updated[i] + 1];
      j := j + 1;
    }
    ForwardScanStops(dates, i, windowSize, timeGap, j);
    ghost var forward := j;
    j := 1;
    while i - j >= 0 && dates[i - j] > date - window && BelowCap(updated[i], windowSize, timeGap)
      invariant 1 <= j <= i + 1
      invariant |updated| == i + 1 && updated[..i] == messageDensity && updated[i] == forward + j - 1
      invariant forward + j - 1 <= cap
      invariant j > 1 ==> forward < cap
      invariant forall k :: i - j < k < i ==> dates[k] > date - window
    {
      BelowCapIff(updated[i], windowSize, timeGap);
      updated := updated[i := updated[i] + 1];
      j := j + 1;
    }
    BackwardScanStops(dates, i, windowSize, timeGap, forward, j);
    LastAppended(updated, messageDensity);
  }

  /** A sequence one longer than `prefix` that starts with `prefix` is
      `prefix` with its last entry appended. */
  lemma LastAppended(s: seq<int>, prefix: seq<int>)
    requires |s| == |prefix| + 1 && s[..|prefix|] == prefix
    ensures s == prefix + [s[|prefix|]]
  {
    assert s == s[..|prefix|] + [s[|prefix|]];
  }
}
