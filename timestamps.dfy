/** Message timestamps and their split into the two scatter-plot coordinates:
    the calendar date (time of day zeroed) and the time of day (placed on the
    fixed day 1970-01-01). */
module Timestamps {

  /** A point in time, in whole microseconds since 1970-01-01T00:00:00
      (the resolution of the datetime values the script works with). */
  type Timestamp = int

  const MicrosPerSecond: int := 1_000_000
  const SecondsPerMinute: int := 60
  const SecondsPerHour: int := 3_600
  const SecondsPerDay: int := 86_400
  const MicrosPerDay: int := SecondsPerDay * MicrosPerSecond

  /** The duration `timedelta(seconds=n)`, in microseconds. */
  function Seconds(n: int): (d: int)
    ensures d / MicrosPerSecond == n && d % MicrosPerSecond == 0
  {
    n * MicrosPerSecond
  }

  /** Whole seconds elapsed since midnight of the day holding `t`. */
  function SecondOfDay(t: Timestamp): (s: int)
    ensures 0 <= s < SecondsPerDay
  {
    t % MicrosPerDay / MicrosPerSecond
  }

  /** The `hour`, `minute` and `second` fields of `t`. */
  function Hour(t: Timestamp): (h: int)
    ensures 0 <= h < 24
  {
    SecondOfDay(t) / SecondsPerHour
  }

  function Minute(t: Timestamp): (m: int)
    ensures 0 <= m < 60
  {
    SecondOfDay(t) % SecondsPerHour / SecondsPerMinute
  }

  function Second(t: Timestamp): (s: int)
    ensures 0 <= s < 60
  {
    SecondOfDay(t) % SecondsPerMinute
  }

  /** `datetime(date.year, date.month, date.day)`: midnight of the day of `t`. */
  function DateOnly(t: Timestamp): (d: Timestamp)
    ensures d % MicrosPerDay == 0
    ensures d <= t < d + MicrosPerDay
  {
    t - t % MicrosPerDay
  }

  /** `datetime(1970, 1, 1, date.hour, date.minute, date.second)`: the time of
      day of `t` on the epoch day, with the sub-second part dropped. */
  function TimeOnly(t: Timestamp): (c: Timestamp)
    ensures 0 <= c < MicrosPerDay && c % MicrosPerSecond == 0
    ensures c == SecondOfDay(t) * MicrosPerSecond
  {
    HmsIsSecondOfDay(t);
    Seconds((Hour(t) * SecondsPerMinute + Minute(t)) * SecondsPerMinute + Second(t))
  }

  /** Hour, minute and second put back together give the second of the day. */
  lemma HmsIsSecondOfDay(t: Timestamp)
    ensures (Hour(t) * SecondsPerMinute + Minute(t)) * SecondsPerMinute + Second(t) == SecondOfDay(t)
  {
    var s := SecondOfDay(t);
    assert s == s / SecondsPerHour * SecondsPerHour + s % SecondsPerHour;
    var r := s % SecondsPerHour;
    assert r == r / SecondsPerMinute * SecondsPerMinute + r % SecondsPerMinute;
    assert r % SecondsPerMinute == s % SecondsPerMinute by {
      assert s == (s / SecondsPerHour * SecondsPerMinute) * SecondsPerMinute + r;
      ModOfMultiplePlus(s / SecondsPerHour * SecondsPerMinute, r, SecondsPerMinute);
    }
  }

  /** A nonzero multiple of `m` is at least `m` away from zero. */
  lemma NonzeroMultiple(k: int, m: int)
    requires m > 0 && k != 0
    ensures k * m >= m || k * m <= -m
  {
    if k > 0 {
      assert k * m == (k - 1) * m + m;
    } else {
      assert k * m == -((-k - 1) * m) - m;
    }
  }

  /** Euclidean division is determined by quotient and remainder. */
  lemma DivModUnique(x: int, q: int, r: int, m: int)
    requires m > 0 && 0 <= r < m && x == q * m + r
    ensures x / m == q && x % m == r
  {
    assert x == x / m * m + x % m;
    assert (q - x / m) * m == x % m - r;
    if q != x / m {
      NonzeroMultiple(q - x / m, m);
      assert false;
    }
  }

  lemma ModOfMultiplePlus(q: int, r: int, m: int)
    requires m > 0
    ensures (q * m + r) % m == r % m
  {
    assert r == r / m * m + r % m;
    assert q * m + r == (q + r / m) * m + r % m;
    DivModUnique(q * m + r, q + r / m, r % m, m);
  }

  /** Day part, time of day and the dropped microseconds add up to the
      original timestamp. */
  lemma DateTimeRoundTrip(t: Timestamp)
    ensures DateOnly(t) + TimeOnly(t) + t % MicrosPerSecond == t
  {
    var r := t % MicrosPerDay;
    assert r == r / MicrosPerSecond * MicrosPerSecond + r % MicrosPerSecond;
    assert r % MicrosPerSecond == t % MicrosPerSecond by {
      assert t == (t / MicrosPerDay * SecondsPerDay) * MicrosPerSecond + r;
      ModOfMultiplePlus(t / MicrosPerDay * SecondsPerDay, r, MicrosPerSecond);
    }
  }

  /** The split is unique: a midnight `d`, a whole-second time of day `c` and
      a sub-second remainder `u` are recovered from `d + c + u`. */
  lemma SplitOfCombined(d: Timestamp, c: Timestamp, u: int)
    requires d % MicrosPerDay == 0
    requires 0 <= c < MicrosPerDay && c % MicrosPerSecond == 0
    requires 0 <= u < MicrosPerSecond
    ensures DateOnly(d + c + u) == d
    ensures TimeOnly(d + c + u) == c
  {
    var t := d + c + u;
    assert d == d / MicrosPerDay * MicrosPerDay;
    ModOfMultiplePlus(d / MicrosPerDay, c + u, MicrosPerDay);
    assert t % MicrosPerDay == c + u;
    assert c == c / MicrosPerSecond * MicrosPerSecond;
    assert (c + u) / MicrosPerSecond == c / MicrosPerSecond by {
      DivOfMultiplePlus(c / MicrosPerSecond, u, MicrosPerSecond);
    }
  }

  lemma DivOfMultiplePlus(q: int, r: int, m: int)
    requires m > 0 && 0 <= r < m
    ensures (q * m + r) / m == q
  {
    DivModUnique(q * m + r, q, r, m);
  }

  /** Later timestamps never fall on an earlier day, and on the same day they
      never have an earlier time of day: the two axes keep chronological order. */
  lemma SplitMonotone(t1: Timestamp, t2: Timestamp)
    requires t1 <= t2
    ensures DateOnly(t1) <= DateOnly(t2)
    ensures DateOnly(t1) == DateOnly(t2) ==> TimeOnly(t1) <= TimeOnly(t2)
  {
    var d1, d2 := DateOnly(t1), DateOnly(t2);
    if d1 == d2 {
      assert t1 % MicrosPerDay <= t2 % MicrosPerDay;
      DivMonotone(t1 % MicrosPerDay, t2 % MicrosPerDay, MicrosPerSecond);
    }
  }

  lemma DivMonotone(x: int, y: int, m: int)
    requires m > 0 && x <= y
    ensures x / m <= y / m
  {
    assert x == x / m * m + x % m;
    assert y == y / m * m + y % m;
    if y / m < x / m {
      assert (x / m - y / m) * m == x - y + y % m - x % m;
      NonzeroMultiple(x / m - y / m, m);
      assert false;
    }
  }
}
