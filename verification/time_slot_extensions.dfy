/** MeetingCalendar/Extensions/TimeSlotExtensions.cs: clipping a meeting to
    the calendar window, the per-minute time series of a slot, and the
    tightest-fit selection `FindFirst`; plus the search-range mapper that
    `Calendar.FindFirstAvailableSlot` calls. */
module TimeSlotExtensions {
  import opened Outcomes
  import opened DateTimes
  import opened TimeSlots

  // ---------------------------------------------------------------------
  // Clipping

  /** `GetTimeSlotMappedToCalenderTimeFrame`: `Ok(None)` (the source's null)
      for a meeting entirely outside [calendarStart, calendarEnd), otherwise
      the meeting clamped to the window, built through the validating
      constructor (which rejects a clamped start at the tick-0 sentinel). */
  function Clip(meeting: TimeSlot, calendarStart: int, calendarEnd: int): (r: Result<Option<TimeSlot>>)
    ensures r == Ok(None) <==> meeting.end <= calendarStart || meeting.start >= calendarEnd
  {
    if meeting.end <= calendarStart || meeting.start >= calendarEnd then Ok(None)
    else
      var s := if meeting.start >= calendarStart then meeting.start else calendarStart;
      var e := if meeting.end <= calendarEnd then meeting.end else calendarEnd;
      match New(s, e)
      case Ok(c) => Ok(Some(c))
      case Err(f) => Err(f)
  }

  /** A calendar window as the constructor leaves it. */
  predicate ValidWindow(calendarStart: int, calendarEnd: int) {
    && InRange(calendarStart) && InRange(calendarEnd)
    && OnMinute(calendarStart) && OnMinute(calendarEnd)
    && calendarStart < calendarEnd
  }

  /** For a valid meeting and window, clipping fails only when the clamped
      start is tick 0, and otherwise yields the overlap
      [max(start, calendarStart), min(end, calendarEnd)], a valid slot inside
      both the meeting and the window. */
  lemma ClipOverlap(meeting: TimeSlot, calendarStart: int, calendarEnd: int)
    requires Valid(meeting) && ValidWindow(calendarStart, calendarEnd)
    requires meeting.end > calendarStart && meeting.start < calendarEnd
    ensures Clip(meeting, calendarStart, calendarEnd).Err? <==>
              (meeting.start == MinTicks && calendarStart == MinTicks)
    ensures Clip(meeting, calendarStart, calendarEnd).Ok? ==>
              var c := Clip(meeting, calendarStart, calendarEnd).value;
              && c.Some? && Valid(c.value)
              && c.value.start == (if meeting.start >= calendarStart then meeting.start else calendarStart)
              && c.value.end == (if meeting.end <= calendarEnd then meeting.end else calendarEnd)
              && calendarStart <= c.value.start && c.value.end <= calendarEnd
              && meeting.start <= c.value.start && c.value.end <= meeting.end
  {
    CalibratedIsNeverMax(meeting.end);
    CalibratedIsNeverMax(calendarEnd);
    CalibrateIdempotent(meeting.start);
    CalibrateIdempotent(meeting.end);
    CalibrateIdempotent(calendarStart);
    CalibrateIdempotent(calendarEnd);
  }

  // ---------------------------------------------------------------------
  // Minute series

  /** The keys `from`, `from` + 1 minute, ... strictly below `to`, in the
      order the source's `while` loop adds them: the first is `from`, all
      lie in [from, to), and the last is within a minute of `to`. Where
      exactly each key lies is `SeriesKeysAt`. */
  function SeriesKeys(from: int, to: int): (ks: seq<int>)
    ensures |ks| == 0 <==> to <= from
    ensures |ks| > 0 ==> ks[0] == from && to <= ks[|ks| - 1] + TicksPerMinute
    ensures forall i :: 0 <= i < |ks| ==> from <= ks[i] < to
    ensures OnMinute(from) ==> forall i :: 0 <= i < |ks| ==> OnMinute(ks[i])
    decreases if from < to then to - from else 0
  {
    if from < to then [from] + SeriesKeys(from + TicksPerMinute, to) else []
  }

  /** The i-th key is exactly i minutes after `from`. */
  lemma {:induction false} SeriesKeysAt(from: int, to: int, i: int)
    requires 0 <= i < |SeriesKeys(from, to)|
    ensures SeriesKeys(from, to)[i] == from + i * TicksPerMinute
    decreases i
  {
    if i > 0 {
      SeriesKeysAt(from + TicksPerMinute, to, i - 1);
    }
  }

  /** Each next key is one minute after the one before it. */
  lemma {:induction false} SeriesKeysNext(from: int, to: int, i: int)
    requires 0 <= i && i + 1 < |SeriesKeys(from, to)|
    ensures SeriesKeys(from, to)[i + 1] == SeriesKeys(from, to)[i] + TicksPerMinute
    decreases i
  {
    if i > 0 {
      SeriesKeysNext(from + TicksPerMinute, to, i - 1);
    }
  }

  /** A key i minutes after `from` that is still below `to` is among the
      first i + 1 keys. */
  lemma {:induction false} SeriesKeysReach(from: int, to: int, i: nat)
    requires from + i * TicksPerMinute < to
    ensures i < |SeriesKeys(from, to)|
    decreases i
  {
    if i > 0 {
      SeriesKeysReach(from + TicksPerMinute, to, i - 1);
    }
  }

  /** A tick is a series key exactly when it lies in [from, to) a whole
      number of minutes after `from`. */
  lemma SeriesKeysMembership(from: int, to: int, k: int)
    ensures k in SeriesKeys(from, to) <==> from <= k < to && (k - from) % TicksPerMinute == 0
  {
    var ks := SeriesKeys(from, to);
    if from <= k < to && (k - from) % TicksPerMinute == 0 {
      var i := WholeMinutes(k - from);
      SeriesKeysReach(from, to, i);
      SeriesKeysAt(from, to, i);
    }
    if k in ks {
      var i :| 0 <= i < |ks| && ks[i] == k;
      SeriesKeysAt(from, to, i);
      MinutesAreWhole(i);
    }
  }

  /** Between whole-minute bounds, an n-minute span yields n keys. */
  lemma {:induction false} SeriesKeysCount(from: int, to: int)
    requires OnMinute(from) && OnMinute(to) && from <= to
    ensures |SeriesKeys(from, to)| * TicksPerMinute == to - from
    decreases if from < to then to - from else 0
  {
    if from < to {
      MinutesApart(from, to);
      NeighbourMinutes(from);
      SeriesKeysCount(from + TicksPerMinute, to);
      assert |SeriesKeys(from, to)| == |SeriesKeys(from + TicksPerMinute, to)| + 1;
    }
  }

  /** Where a slot's series begins: the explicit start, or the slot's own
      start when the argument is left at its default (tick 0). */
  function SeriesStart(slot: TimeSlot, seriesStartTime: int): int {
    if seriesStartTime == MinTicks then slot.start else seriesStartTime
  }

  /** `GetTimeSeriesByMinutes`: one entry per minute from the series start
      up to (excluding) the slot's end, each mapped to `value`; an empty
      dictionary for a null slot. */
  function TimeSeriesByMinutes<V>(slot: Option<TimeSlot>, value: V, seriesStartTime: int): (r: map<int, V>)
    ensures slot.None? ==> r == map[]
    ensures slot.Some? ==>
              forall k :: k in r <==> k in SeriesKeys(SeriesStart(slot.value, seriesStartTime), slot.value.end)
    ensures forall k :: k in r ==> r[k] == value
  {
    match slot
    case None => map[]
    case Some(s) => map k | k in SeriesKeys(SeriesStart(s, seriesStartTime), s.end) :: value
  }

  /** The entries the loop has added after its first `n` steps. */
  ghost function SeriesPrefix<V>(ks: seq<int>, n: nat, value: V): map<int, V>
    requires n <= |ks|
  {
    map k | k in ks[..n] :: value
  }

  /** One more step adds the next key. */
  lemma SeriesPrefixStep<V>(ks: seq<int>, n: nat, value: V)
    requires n < |ks|
    ensures SeriesPrefix(ks, n + 1, value) == SeriesPrefix(ks, n, value)[ks[n] := value]
  {
    assert ks[..n + 1] == ks[..n] + [ks[n]];
  }

  /** The source's loop: start at the series start and add one key per
      minute while below the slot's end. */
  method GetTimeSeriesByMinutes<V>(slot: Option<TimeSlot>, value: V, seriesStartTime: int)
      returns (timeRange: map<int, V>)
    ensures timeRange == TimeSeriesByMinutes(slot, value, seriesStartTime)
  {
    timeRange := map[];
    if slot.None? {
      return;
    }
    var s := slot.value;
    var from := SeriesStart(s, seriesStartTime);
    ghost var ks := SeriesKeys(from, s.end);
    var temp := from;
    ghost var n := 0;
    while temp < s.end
      invariant 0 <= n <= |ks|
      invariant n < |ks| ==> temp == ks[n]
      invariant n == |ks| ==> temp >= s.end
      invariant timeRange == SeriesPrefix(ks, n, value)
      decreases s.end - temp
    {
      SeriesPrefixStep(ks, n, value);
      if n + 1 < |ks| {
        SeriesKeysNext(from, s.end, n);
      }
      timeRange := timeRange[temp := value];
      temp := temp + TicksPerMinute;
      n := n + 1;
    }
    assert ks[..n] == ks;
  }

  // ---------------------------------------------------------------------
  // Tightest-fit selection

  /** The order `FindFirst` sorts by: duration first, then start. */
  predicate Precedes(a: TimeSlot, b: TimeSlot) {
    Duration(a) < Duration(b) || (Duration(a) == Duration(b) && a.start < b.start)
  }

  /** `i` is where a stable sort by (duration, start) followed by
      `FirstOrDefault` lands among the elements `accept` keeps: no kept
      element sorts strictly before it, and it sorts strictly before every
      kept element that comes earlier in the list. */
  ghost predicate IsTightestFit(xs: seq<TimeSlot>, accept: TimeSlot -> bool, i: int) {
    && 0 <= i < |xs| && accept(xs[i])
    && (forall j :: 0 <= j < |xs| && accept(xs[j]) ==> !Precedes(xs[j], xs[i]))
    && (forall j :: 0 <= j < i && accept(xs[j]) ==> Precedes(xs[i], xs[j]))
  }

  /** The position of the tightest fit, scanning left to right and keeping
      the first of equally good candidates. */
  function TightestFitIndex(xs: seq<TimeSlot>, accept: TimeSlot -> bool): (r: Option<nat>)
    ensures r.None? <==> forall i :: 0 <= i < |xs| ==> !accept(xs[i])
    ensures r.Some? ==> IsTightestFit(xs, accept, r.value)
    decreases |xs|
  {
    if |xs| == 0 then None
    else
      var r := TightestFitIndex(xs[..|xs| - 1], accept);
      var last := xs[|xs| - 1];
      if accept(last) && (r.None? || Precedes(last, xs[r.value])) then Some(|xs| - 1) else r
  }

  /** A null predicate accepts every slot. */
  function Acceptor(filter: Option<TimeSlot -> bool>): TimeSlot -> bool {
    match filter
    case None => (t: TimeSlot) => true
    case Some(p) => p
  }

  /** `FindFirst`: null for a null source or when nothing matches, otherwise
      a matching slot of least duration, earliest start among equals. */
  function FindFirst(source: Option<seq<TimeSlot>>, filter: Option<TimeSlot -> bool>): (r: Option<TimeSlot>)
    ensures source.None? ==> r.None?
    ensures source.Some? ==>
              (r.Some? <==> exists i :: 0 <= i < |source.value| && Acceptor(filter)(source.value[i]))
    ensures r.Some? ==>
              exists i :: IsTightestFit(source.value, Acceptor(filter), i) && r.value == source.value[i]
  {
    match source
    case None => None
    case Some(xs) =>
      match TightestFitIndex(xs, Acceptor(filter))
      case None => None
      case Some(i) => Some(xs[i])
  }

  /** The selected slot is unique in its (duration, start) class up to
      list position: any other matching slot either sorts strictly after it
      or has the same duration and start and comes later. */
  lemma TightestFitIsLeast(xs: seq<TimeSlot>, accept: TimeSlot -> bool, i: int, j: int)
    requires IsTightestFit(xs, accept, i)
    requires 0 <= j < |xs| && accept(xs[j]) && j != i
    ensures Precedes(xs[i], xs[j]) || (Duration(xs[j]) == Duration(xs[i]) && xs[j].start == xs[i].start && i < j)
  {
  }

  // ---------------------------------------------------------------------
  // Search-range mapping

  /** `TimeSlotMapper`: clamps a slot that straddles the lower bound up to
      it and one that straddles the upper bound down to it, and leaves every
      other slot as it is. */
  function TimeSlotMapper(t: TimeSlot, lowerBound: int, upperBound: int): (r: TimeSlot)
    ensures t.start <= t.end ==> t.start <= r.start <= r.end <= t.end
    ensures lowerBound <= t.start && t.end <= upperBound ==> r == t
    ensures t.start < lowerBound < upperBound < t.end ==> r == TimeSlot(lowerBound, upperBound)
  {
    var s := if t.start < lowerBound && lowerBound < t.end then lowerBound else t.start;
    var e := if s < upperBound && upperBound < t.end then upperBound else t.end;
    TimeSlot(s, e)
  }
}
