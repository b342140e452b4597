/** `DateTime` as a count of 100-nanosecond ticks, and the two helpers of
    MeetingCalendar/Extensions/DateTimeExtensions.cs.

    `DateTime.MinValue` is tick 0 and `DateTime.MaxValue` is the last tick of
    the year 9999. A minute is 600,000,000 ticks. Calibration keeps year,
    month, day, hour and minute and drops the rest, which on ticks is
    truncation to a multiple of one minute. */
module DateTimes {
  import opened Outcomes

  const TicksPerMinute: int := 600_000_000
  const MinTicks: int := 0
  const MaxTicks: int := 3_155_378_975_999_999_999

  /** The last whole minute `DateTime` can hold. */
  const LastMinute: int := MaxTicks + 1 - TicksPerMinute

  /** A tick count that `DateTime` can hold. */
  predicate InRange(t: int) {
    MinTicks <= t <= MaxTicks
  }

  /** The tick lies on a whole minute (no seconds, no sub-second part). */
  predicate OnMinute(t: int) {
    t % TicksPerMinute == 0
  }

  /** `CalibrateToMinutes`: the start of the minute that contains `t`. */
  function CalibrateToMinutes(t: int): (r: int)
    ensures OnMinute(r)
    ensures r <= t < r + TicksPerMinute
    ensures InRange(t) ==> InRange(r)
  {
    t - t % TicksPerMinute
  }

  /** `IsInvalidDate`: the two sentinel values are rejected. */
  predicate IsInvalidDate(t: int) {
    t == MinTicks || t == MaxTicks
  }

  /** `DateTime.AddMinutes` for a whole number of minutes: the result must
      stay inside the representable range or it throws. */
  function AddMinutes(t: int, minutes: int): (r: Result<int>)
    ensures r.Ok? <==> InRange(t + minutes * TicksPerMinute)
    ensures r.Ok? ==> r.value - t == minutes * TicksPerMinute
  {
    var u := t + minutes * TicksPerMinute;
    if InRange(u) then Ok(u) else Err(OutOfRange)
  }

  /** Calibration is the greatest whole minute not after `t`: it is a floor,
      not merely some minute below `t`. */
  lemma CalibrateIsFloor(t: int, m: int)
    requires OnMinute(m) && m <= t
    ensures m <= CalibrateToMinutes(t)
  {
  }

  /** A tick that already lies on a minute is left unchanged, so calibrating
      twice is the same as calibrating once. */
  lemma CalibrateIdempotent(t: int)
    ensures CalibrateToMinutes(CalibrateToMinutes(t)) == CalibrateToMinutes(t)
    ensures OnMinute(t) <==> CalibrateToMinutes(t) == t
  {
  }

  /** Calibration is monotone. */
  lemma CalibrateMonotone(a: int, b: int)
    requires a <= b
    ensures CalibrateToMinutes(a) <= CalibrateToMinutes(b)
  {
    CalibrateIsFloor(b, CalibrateToMinutes(a));
  }

  /** A raw instant lies strictly before a whole minute exactly when its
      calibration does. The legacy calendar compares raw clock readings with
      whole-minute bounds where the newer one calibrates first; this lemma
      is why the two agree. */
  lemma BeforeMinuteIffCalibratedBefore(t: int, m: int)
    requires OnMinute(m)
    ensures t < m <==> CalibrateToMinutes(t) < m
  {
    if CalibrateToMinutes(t) < m && m <= t {
      CalibrateIsFloor(t, m);
    }
  }

  /** The largest valid instant is one tick before a whole minute, so no
      calibrated value is the `MaxValue` sentinel, and the last whole minute
      is `MaxTicks + 1 - TicksPerMinute`. */
  lemma CalibratedIsNeverMax(t: int)
    requires InRange(t)
    ensures CalibrateToMinutes(t) != MaxTicks
    ensures CalibrateToMinutes(t) <= MaxTicks + 1 - TicksPerMinute
  {
    assert (MaxTicks + 1) % TicksPerMinute == 0;
    CalibrateIsFloor(MaxTicks, MaxTicks + 1 - TicksPerMinute);
    CalibrateMonotone(t, MaxTicks);
  }

  /** Two distinct whole minutes are at least a minute apart. */
  lemma MinutesApart(a: int, b: int)
    requires OnMinute(a) && OnMinute(b) && a < b
    ensures a + TicksPerMinute <= b
  {
    assert a == TicksPerMinute * (a / TicksPerMinute);
    assert b == TicksPerMinute * (b / TicksPerMinute);
  }

  /** A non-negative whole number of minutes, as a count. */
  lemma WholeMinutes(d: int) returns (n: nat)
    requires d >= 0 && d % TicksPerMinute == 0
    ensures d == n * TicksPerMinute
  {
    n := d / TicksPerMinute;
  }

  /** A whole number of minutes is a multiple of a minute. */
  lemma MinutesAreWhole(n: int)
    ensures (n * TicksPerMinute) % TicksPerMinute == 0
  {
  }

  /** Whole numbers of minutes compare as their counts do, and one more
      minute is one minute later. */
  lemma MinuteCounts(m: int, n: int)
    ensures m < n ==> m * TicksPerMinute + TicksPerMinute <= n * TicksPerMinute
    ensures m <= n <==> m * TicksPerMinute <= n * TicksPerMinute
    ensures (m + 1) * TicksPerMinute == m * TicksPerMinute + TicksPerMinute
  {
    assert n * TicksPerMinute - m * TicksPerMinute == (n - m) * TicksPerMinute;
  }

  /** A whole number of minutes after a whole minute is a whole minute. */
  lemma MinuteOffset(t: int, m: int)
    requires OnMinute(t)
    ensures OnMinute(t + m * TicksPerMinute)
  {
    MinutesAreWhole(t / TicksPerMinute + m);
    assert t + m * TicksPerMinute == (t / TicksPerMinute + m) * TicksPerMinute;
  }

  /** The neighbouring minutes of a whole minute are whole minutes. */
  lemma NeighbourMinutes(t: int)
    requires OnMinute(t)
    ensures OnMinute(t + TicksPerMinute) && OnMinute(t - TicksPerMinute)
  {
  }
}
