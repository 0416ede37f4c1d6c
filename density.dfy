/** The message-density metric: for each timestamp, how many timestamps lie
    strictly within `windowSize` seconds of it, clipped at the density cap
    `windowSize / timeGap`. */
module Density {
  import opened Timestamps
  import opened Sorting

  /** `x` is strictly less than `w` away from `c`, on either side. */
  predicate InWindow(x: int, c: int, w: int)
  {
    c - w < x < c + w
  }

  /** How many elements of `s` lie in the window of half-width `w` around `c`.
      This is the reference count: it looks at every element and does not
      depend on order. */
  function Within(s: seq<int>, c: int, w: int): (n: nat)
    ensures n <= |s|
  {
    if s == [] then 0
    else (if InWindow(s[0], c, w) then 1 else 0) + Within(s[1..], c, w)
  }

  lemma {:induction false} WithinAppend(a: seq<int>, b: seq<int>, c: int, w: int)
    ensures Within(a + b, c, w) == Within(a, c, w) + Within(b, c, w)
  {
    if a != [] {
      assert (a + b)[1..] == a[1..] + b;
      WithinAppend(a[1..], b, c, w);
    } else {
      assert a + b == b;
    }
  }

  lemma {:induction false} WithinAll(s: seq<int>, c: int, w: int)
    requires forall k :: 0 <= k < |s| ==> InWindow(s[k], c, w)
    ensures Within(s, c, w) == |s|
  {
    if s != [] {
      WithinAll(s[1..], c, w);
    }
  }

  lemma {:induction false} WithinNone(s: seq<int>, c: int, w: int)
    requires forall k :: 0 <= k < |s| ==> !InWindow(s[k], c, w)
    ensures Within(s, c, w) == 0
  {
    if s != [] {
      WithinNone(s[1..], c, w);
    }
  }

  /** The window population depends only on which timestamps there are, not
      on the order in which they were collected. */
  lemma {:induction false} WithinPermutation(s: seq<int>, t: seq<int>, c: int, w: int)
    requires multiset(s) == multiset(t)
    ensures Within(s, c, w) == Within(t, c, w)
    decreases |s|
  {
    assert |s| == |multiset(s)| == |multiset(t)| == |t|;
    if s != [] {
      var x := s[0];
      assert x in multiset(t);
      var k :| 0 <= k < |t| && t[k] == x;
      var rest := t[..k] + t[k + 1..];
      assert t == t[..k] + [x] + t[k + 1..];
      WithinAppend(t[..k] + [x], t[k + 1..], c, w);
      WithinAppend(t[..k], [x], c, w);
      WithinAppend(t[..k], t[k + 1..], c, w);
      calc {
        multiset(s[1..]);
        { assert s == [x] + s[1..]; }
        multiset(s) - multiset{x};
        multiset(t) - multiset{x};
        { assert multiset(t) == multiset(t[..k]) + multiset{x} + multiset(t[k + 1..]); }
        multiset(rest);
      }
      WithinPermutation(s[1..], rest, c, w);
    }
  }

  /** `count < windowSize / timeGap`, the loop guard against `maxDensity`,
      decided on integers: multiplying through by `timeGap` keeps the
      direction of the comparison when `timeGap` is positive and flips it
      when `timeGap` is negative. Against the whole quotient q of the ratio,
      the guard holds for counts below q when the ratio is a whole number,
      and for counts up to q when it is not. */
  predicate BelowCap(count: int, windowSize: int, timeGap: int)
    requires timeGap != 0
    ensures var g := if timeGap > 0 then timeGap else -timeGap;
            var w := if timeGap > 0 then windowSize else -windowSize;
            BelowCap(count, windowSize, timeGap) <==>
              if w % g == 0 then count < w / g else count <= w / g
  {
    BelowCapFloor(count, windowSize, timeGap);
    if timeGap > 0 then count * timeGap < windowSize else count * timeGap > windowSize
  }

  /** A non-positive multiple of a positive `g` is non-positive; a positive
      one is at least `g`. */
  lemma SignOfMultiple(a: int, g: int)
    requires g > 0
    ensures a <= 0 ==> a * g <= 0
    ensures a >= 1 ==> a * g >= g
  {
    if a >= 1 {
      assert a * g == (a - 1) * g + g;
    } else if a < 0 {
      assert a * g == -((-a) * g);
    }
  }

  /** The guard expression of `BelowCap` compared against the whole quotient
      of `windowSize / timeGap`. */
  lemma BelowCapFloor(count: int, windowSize: int, timeGap: int)
    requires timeGap != 0
    ensures var g := if timeGap > 0 then timeGap else -timeGap;
            var w := if timeGap > 0 then windowSize else -windowSize;
            (if timeGap > 0 then count * timeGap < windowSize else count * timeGap > windowSize)
              <==> if w % g == 0 then count < w / g else count <= w / g
  {
    var g := if timeGap > 0 then timeGap else -timeGap;
    var w := if timeGap > 0 then windowSize else -windowSize;
    var q, r := w / g, w % g;
    assert w == q * g + r;
    assert timeGap < 0 ==> count * timeGap == -(count * g);
    assert count * g - w == (count - q) * g - r;
    SignOfMultiple(count - q, g);
    SignOfMultiple(q - count, g);
    assert (q - count) * g == -((count - q) * g);
  }

  /** Ceiling of `a / b` for a positive divisor. */
  function CeilDiv(a: int, b: int): (q: int)
    requires b > 0
    ensures (q - 1) * b < a <= q * b
  {
    var q := (a + b - 1) / b;
    assert a + b - 1 == q * b + (a + b - 1) % b;
    assert q * b == (q - 1) * b + b;
    q
  }

  /** The largest density a message can get: the least count, starting from 1,
      at which the scans stop for the cap. */
  function Cap(windowSize: int, timeGap: int): (c: int)
    requires timeGap != 0
    ensures c >= 1 && !BelowCap(c, windowSize, timeGap)
    ensures c == 1 || BelowCap(c - 1, windowSize, timeGap)
  {
    var g := if timeGap > 0 then timeGap else -timeGap;
    var w := if timeGap > 0 then windowSize else -windowSize;
    var q := CeilDiv(w, g);
    assert timeGap < 0 ==> q * timeGap == -(q * g) && (q - 1) * timeGap == -((q - 1) * g);
    if q >= 1 then
      q
    else
      assert 1 * g >= w by {
        assert (q - 1) * g < 0 by { NegativeTimesPositive(q - 1, g); }
      }
      1
  }

  lemma NegativeTimesPositive(a: int, b: int)
    requires a < 0 && b > 0
    ensures a * b < 0
  {
    assert a * b == -((-a) * b);
  }

  /** More messages are never below the cap when fewer already are not. */
  lemma BelowCapDownward(smaller: int, larger: int, windowSize: int, timeGap: int)
    requires timeGap != 0 && smaller <= larger
    requires BelowCap(larger, windowSize, timeGap)
    ensures BelowCap(smaller, windowSize, timeGap)
  {
    assert larger * timeGap == smaller * timeGap + (larger - smaller) * timeGap;
    if timeGap > 0 {
      assert (larger - smaller) * timeGap >= 0;
    } else {
      assert (larger - smaller) * timeGap == -((larger - smaller) * -timeGap);
    }
  }

  /** For every count the scans can hold, the guard against `maxDensity` is
      exactly "count is below Cap". */
  lemma BelowCapIff(count: int, windowSize: int, timeGap: int)
    requires timeGap != 0 && count >= 1
    ensures BelowCap(count, windowSize, timeGap) <==> count < Cap(windowSize, timeGap)
  {
    var c := Cap(windowSize, timeGap);
    if count < c {
      BelowCapDownward(count, c - 1, windowSize, timeGap);
    } else if BelowCap(count, windowSize, timeGap) {
      BelowCapDownward(c, count, windowSize, timeGap);
    }
  }

  function Min(a: int, b: int): int
  {
    if a <= b then a else b
  }

  /** The density the script computes for position `i` of the sorted
      timestamps: the message itself, plus the later and the earlier messages
      strictly within `windowSize` seconds of it, clipped at the cap. */
  function WindowDensity(s: seq<Timestamp>, i: int, windowSize: int, timeGap: int): (d: int)
    requires 0 <= i < |s| && timeGap != 0
    ensures 1 <= d <= Cap(windowSize, timeGap)
  {
    var w := Seconds(windowSize);
    Min(1 + Within(s[i + 1..], s[i], w) + Within(s[..i], s[i], w), Cap(windowSize, timeGap))
  }

  /** What the forward scan from `i` has seen after `j - 1` steps: that many
      later neighbours at least, and all of them once the scan has reached
      the end or the first timestamp at or past the window's end. */
  lemma ForwardRun(s: seq<Timestamp>, i: int, w: int, j: int)
    requires Ascending(s) && 0 <= i < |s| && 1 <= j <= |s| - i
    requires forall k :: i < k < i + j ==> s[k] < s[i] + w
    ensures Within(s[i + 1..], s[i], w) >= j - 1
    ensures i + j == |s| || s[i + j] >= s[i] + w ==> Within(s[i + 1..], s[i], w) == j - 1
  {
    var c := s[i];
    var run, rest := s[i + 1..i + j], s[i + j..];
    assert s[i + 1..] == run + rest;
    WithinAppend(run, rest, c, w);
    forall k | 0 <= k < |run| ensures InWindow(run[k], c, w) {
      assert run[k] == s[i + 1 + k] && c <= s[i + 1 + k];
    }
    WithinAll(run, c, w);
    if i + j == |s| || s[i + j] >= c + w {
      forall k | 0 <= k < |rest| ensures !InWindow(rest[k], c, w) {
        assert rest[k] == s[i + j + k] && s[i + j] <= s[i + j + k];
      }
      WithinNone(rest, c, w);
    }
  }

  /** The mirror image of ForwardRun for the backward scan from `i`. */
  lemma BackwardRun(s: seq<Timestamp>, i: int, w: int, j: int)
    requires Ascending(s) && 0 <= i < |s| && 1 <= j <= i + 1
    requires forall k :: i - j < k < i ==> s[k] > s[i] - w
    ensures Within(s[..i], s[i], w) >= j - 1
    ensures i - j < 0 || s[i - j] <= s[i] - w ==> Within(s[..i], s[i], w) == j - 1
  {
    var c := s[i];
    var lo := i - j + 1;
    var rest, run := s[..lo], s[lo..i];
    assert s[..i] == rest + run;
    WithinAppend(rest, run, c, w);
    forall k | 0 <= k < |run| ensures InWindow(run[k], c, w) {
      assert run[k] == s[lo + k] && s[lo + k] <= c;
    }
    WithinAll(run, c, w);
    if i - j < 0 || s[i - j] <= c - w {
      forall k | 0 <= k < |rest| ensures !InWindow(rest[k], c, w) {
        assert rest[k] == s[k] && s[k] <= s[i - j];
      }
      WithinNone(rest, c, w);
    }
  }

  /** When the forward scan from `i` stops, after `j - 1` increments of a
      count that started at 1, the count is the later neighbours plus one,
      clipped at the cap. */
  lemma ForwardScanStops(s: seq<Timestamp>, i: int, windowSize: int, timeGap: int, j: int)
    requires Ascending(s) && 0 <= i < |s| && timeGap != 0
    requires 1 <= j <= |s| - i && j <= Cap(windowSize, timeGap)
    requires forall k :: i < k < i + j ==> s[k] < s[i] + Seconds(windowSize)
    requires i + j == |s| || s[i + j] >= s[i] + Seconds(windowSize) || !BelowCap(j, windowSize, timeGap)
    ensures j == Min(1 + Within(s[i + 1..], s[i], Seconds(windowSize)), Cap(windowSize, timeGap))
  {
    ForwardRun(s, i, Seconds(windowSize), j);
    BelowCapIff(j, windowSize, timeGap);
  }

  /** When the backward scan from `i` stops, after `j - 1` increments of the
      count `forward` the forward scan left, the count is the density. */
  lemma BackwardScanStops(s: seq<Timestamp>, i: int, windowSize: int, timeGap: int, forward: int, j: int)
    requires Ascending(s) && 0 <= i < |s| && timeGap != 0
    requires forward == Min(1 + Within(s[i + 1..], s[i], Seconds(windowSize)), Cap(windowSize, timeGap))
    requires 1 <= j <= i + 1 && forward + j - 1 <= Cap(windowSize, timeGap)
    requires j > 1 ==> forward < Cap(windowSize, timeGap)
    requires forall k :: i - j < k < i ==> s[k] > s[i] - Seconds(windowSize)
    requires i - j < 0 || s[i - j] <= s[i] - Seconds(windowSize) || !BelowCap(forward + j - 1, windowSize, timeGap)
    ensures forward + j - 1 == WindowDensity(s, i, windowSize, timeGap)
  {
    BackwardRun(s, i, Seconds(windowSize), j);
    BelowCapIff(forward + j - 1, windowSize, timeGap);
  }

  /** With a positive window the density is the whole window population around
      the message (itself included), clipped at the cap: sharing the cap
      between the two scans loses nothing. */
  lemma DensityIsClippedPopulation(s: seq<Timestamp>, i: int, windowSize: int, timeGap: int)
    requires 0 <= i < |s| && timeGap != 0 && windowSize > 0
    ensures WindowDensity(s, i, windowSize, timeGap)
            == Min(Within(s, s[i], Seconds(windowSize)), Cap(windowSize, timeGap))
  {
    var w := Seconds(windowSize);
    var before, after := s[..i], s[i + 1..];
    assert s == before + ([s[i]] + after);
    WithinAppend(before, [s[i]] + after, s[i], w);
    assert ([s[i]] + after)[1..] == after;
  }

  /** The density of each sorted timestamp is determined by the collected
      timestamps as a bag: the order in which channels and rows were read
      does not matter. */
  lemma DensityIgnoresArrivalOrder(ingested: seq<Timestamp>, i: int, windowSize: int, timeGap: int)
    requires 0 <= i < |ingested| && timeGap != 0 && windowSize > 0
    ensures |SortAscending(ingested)| == |ingested|
    ensures WindowDensity(SortAscending(ingested), i, windowSize, timeGap)
            == Min(Within(ingested, SortAscending(ingested)[i], Seconds(windowSize)), Cap(windowSize, timeGap))
  {
    var dates := SortAscending(ingested);
    assert |dates| == |multiset(dates)| == |multiset(ingested)| == |ingested|;
    DensityIsClippedPopulation(dates, i, windowSize, timeGap);
    WithinPermutation(dates, ingested, dates[i], Seconds(windowSize));
  }

  /** A message with no other message strictly within the window (one exactly
      `windowSize` away does not count) has density exactly 1. */
  lemma IsolatedDensityIsOne(s: seq<Timestamp>, i: int, windowSize: int, timeGap: int)
    requires 0 <= i < |s| && timeGap != 0
    requires forall k :: 0 <= k < |s| && k != i ==> !InWindow(s[k], s[i], Seconds(windowSize))
    ensures WindowDensity(s, i, windowSize, timeGap) == 1
  {
    var w := Seconds(windowSize);
    var after, before := s[i + 1..], s[..i];
    forall k | 0 <= k < |after| ensures !InWindow(after[k], s[i], w) {
      assert after[k] == s[i + 1 + k];
    }
    WithinNone(after, s[i], w);
    forall k | 0 <= k < |before| ensures !InWindow(before[k], s[i], w) {
      assert before[k] == s[k];
    }
    WithinNone(before, s[i], w);
  }

  /** Three messages at 12:00:00, 12:00:10 and 12:20:01 with a 20-minute
      window and a 20-second gap: the last is 1201 seconds after the first
      (outside the window) but only 1191 seconds after the second (inside
      it), so the densities are 2, 3 and 2. */
  lemma ThreeMessageDensities(day: Timestamp)
    requires day % MicrosPerDay == 0
    ensures var noon := day + Seconds(12 * SecondsPerHour);
            var s := [noon, noon + Seconds(10), noon + Seconds(20 * SecondsPerMinute + 1)];
            WindowDensity(s, 0, 1200, 20) == 2 && WindowDensity(s, 1, 1200, 20) == 3
            && WindowDensity(s, 2, 1200, 20) == 2
  {
    var noon := day + Seconds(12 * SecondsPerHour);
    var s := [noon, noon + Seconds(10), noon + Seconds(20 * SecondsPerMinute + 1)];
    var w := Seconds(1200);
    assert s[1..] == [s[1], s[2]] && s[2..] == [s[2]] && s[3..] == [];
    assert s[..1] == [s[0]] && s[..2] == [s[0], s[1]];
    assert [s[1], s[2]][1..] == [s[2]] && [s[0], s[1]][1..] == [s[1]];
    assert Within([s[1], s[2]], s[0], w) == 1;
    assert Within([s[2]], s[1], w) == 1 && Within([s[0]], s[1], w) == 1;
    assert Within([s[0], s[1]], s[2], w) == 1;
    assert Cap(1200, 20) == 60;
  }

  /** A message exactly one window after another is not counted by either. */
  lemma WindowBoundaryExcluded(t: Timestamp, windowSize: int, timeGap: int)
    requires windowSize > 0 && timeGap != 0
    ensures var s := [t, t + Seconds(windowSize)];
            WindowDensity(s, 0, windowSize, timeGap) == 1 && WindowDensity(s, 1, windowSize, timeGap) == 1
  {
    var s := [t, t + Seconds(windowSize)];
    IsolatedDensityIsOne(s, 0, windowSize, timeGap);
    IsolatedDensityIsOne(s, 1, windowSize, timeGap);
  }
}
