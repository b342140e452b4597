/** The calendar of MeetingCalendar/Calendar.cs: a window of whole minutes,
    the attendees with their meetings, and the queries that find the free
    time inside the window.

    The wall clock is the parameter `clock` (raw ticks), read once per
    query; `CurrentTime` is its calibration. The void methods that change
    the calendar are functions from the old calendar to the new one. */
module Calendars {
  import opened Outcomes
  import opened DateTimes
  import opened TimeSlots
  import opened TimeSlotExtensions
  import opened DictionaryExtensions
  import opened CollectionExtensions
  import opened MeetingInfoExtensions
  import opened Timeline
  import opened SlotScan

  /** An attendee: identity and contact fields, and the meetings they
      attend (a meeting is a `TimeSlot`). */
  datatype Attendee = Attendee(id: int, name: string, email: string, meetings: seq<TimeSlot>)

  /** The calendar's state: its window and its attendee list, `None` for a
      null list. */
  datatype Calendar = Calendar(start: int, end: int, attendees: Option<seq<Attendee>>)

  /** What the constructor establishes: a window of whole, representable,
      ordered minutes. */
  predicate ValidCalendar(c: Calendar) {
    ValidWindow(c.start, c.end)
  }

  // ---------------------------------------------------------------------
  // Construction

  /** The constructors (the `ITimeSlot` overloads pass the slot's bounds):
      the raw bounds are checked against the sentinels, start first, then
      calibrated, and the calibrated window must not be empty. */
  function NewCalendar(startTime: int, endTime: int, attendees: Option<seq<Attendee>>): (r: Result<Calendar>)
    ensures IsInvalidDate(startTime) ==> r == Err(InvalidCalendarStart)
    ensures !IsInvalidDate(startTime) && IsInvalidDate(endTime) ==> r == Err(InvalidCalendarEnd)
    ensures r.Ok? <==>
              && !IsInvalidDate(startTime) && !IsInvalidDate(endTime)
              && CalibrateToMinutes(startTime) < CalibrateToMinutes(endTime)
    ensures r.Ok? ==> r.value.attendees == attendees
    ensures r.Ok? && InRange(startTime) && InRange(endTime) ==> ValidCalendar(r.value)
  {
    if IsInvalidDate(startTime) then Err(InvalidCalendarStart)
    else if IsInvalidDate(endTime) then Err(InvalidCalendarEnd)
    else
      var s := CalibrateToMinutes(startTime);
      var e := CalibrateToMinutes(endTime);
      if s >= e then Err(CalendarEndNotAfterStart) else Ok(Calendar(s, e, attendees))
  }

  /** The calendar accepts exactly the windows the slot constructor accepts
      with a strictly later end, and stores the same bounds. */
  lemma NewCalendarAgreesWithSlot(startTime: int, endTime: int, attendees: Option<seq<Attendee>>)
    ensures NewCalendar(startTime, endTime, attendees).Ok? <==>
              New(startTime, endTime).Ok? && New(startTime, endTime).value.start < New(startTime, endTime).value.end
    ensures NewCalendar(startTime, endTime, attendees).Ok? ==>
              var s := New(startTime, endTime).value;
              NewCalendar(startTime, endTime, attendees).value == Calendar(s.start, s.end, attendees)
  {
    if New(startTime, endTime).Ok? {
      NewStoresCalibrated(startTime, endTime);
    }
  }

  // ---------------------------------------------------------------------
  // Derived values

  /** `CurrentTime`: the clock calibrated to the minute. */
  function CurrentTime(clock: int): int {
    CalibrateToMinutes(clock)
  }

  /** `TimeSlotComputationStartTime`: the later of the window start and
      the current minute; no free time is computed before it. */
  function ComputationStart(c: Calendar, clock: int): (r: int)
    ensures r >= c.start && r >= CurrentTime(clock)
    ensures r == c.start || r == CurrentTime(clock)
  {
    if c.start >= CurrentTime(clock) then c.start else CurrentTime(clock)
  }

  /** `CalendarWindowInMinutes`: the window's duration by the slot rule. */
  function WindowMinutes(c: Calendar): int {
    Duration(TimeSlot(c.start, c.end))
  }

  // ---------------------------------------------------------------------
  // The meetings that still matter

  /** `w` is the clipped window of meeting `m`, which is not over. */
  predicate LiveWindow(m: TimeSlot, c: Calendar, clock: int, w: TimeSlot) {
    !Over(m, clock) && Clip(m, c.start, c.end) == Ok(Some(w))
  }

  /** Meeting `m` is not over and clipping it throws. */
  predicate ClipFails(m: TimeSlot, c: Calendar, clock: int) {
    !Over(m, clock) && Clip(m, c.start, c.end).Err?
  }

  /** The windows one attendee's meetings contribute, in meeting order:
      meetings that are over and meetings outside the calendar window
      contribute nothing, and a clipping that throws ends the query. */
  function MeetingWindows(meetings: seq<TimeSlot>, c: Calendar, clock: int): (r: Result<seq<TimeSlot>>)
    ensures r.Err? <==> exists m :: m in meetings && ClipFails(m, c, clock)
    ensures r.Ok? ==> forall w :: w in r.value <==> exists m :: m in meetings && LiveWindow(m, c, clock, w)
    decreases |meetings|
  {
    if |meetings| == 0 then Ok([])
    else
      var m := meetings[0];
      var rest := MeetingWindows(meetings[1..], c, clock);
      assert forall x :: x in meetings <==> x == m || x in meetings[1..];
      var clipped := if Over(m, clock) then Ok(None) else Clip(m, c.start, c.end);
      match clipped
      case Err(f) =>
        assert ClipFails(m, c, clock);
        Err(f)
      case Ok(w) =>
        assert !ClipFails(m, c, clock);
        match rest
        case Err(f) => Err(f)
        case Ok(ws) =>
          var r := (if w.Some? then [w.value] else []) + ws;
          assert forall v :: v in r <==> (w.Some? && v == w.value) || v in ws;
          assert w.Some? ==> LiveWindow(m, c, clock, w.value);
          assert forall v :: LiveWindow(m, c, clock, v) ==> w == Some(v);
          Ok(r)
  }

  /** The windows of all attendees, attendee by attendee: the meetings the
      fill in `GetAllAvailableTimeSlots` marks, and the first failure it
      meets. */
  function LiveWindows(attendees: seq<Attendee>, c: Calendar, clock: int): (r: Result<seq<TimeSlot>>)
    ensures r.Err? <==> exists a, m :: a in attendees && m in a.meetings && ClipFails(m, c, clock)
    ensures r.Ok? ==>
              forall w :: w in r.value <==> exists a, m :: a in attendees && m in a.meetings && LiveWindow(m, c, clock, w)
    decreases |attendees|
  {
    if |attendees| == 0 then Ok([])
    else
      var a := attendees[0];
      var rest := LiveWindows(attendees[1..], c, clock);
      assert forall x :: x in attendees <==> x == a || x in attendees[1..];
      match MeetingWindows(a.meetings, c, clock)
      case Err(f) => Err(f)
      case Ok(w) =>
        match rest
        case Err(f) => Err(f)
        case Ok(ws) => Ok(w + ws)
  }

  /** Clipping can only throw for a calendar that starts at tick 0: with
      valid meetings and any other valid window the clipping pass succeeds. */
  lemma LiveWindowsSucceed(c: Calendar, clock: int)
    requires ValidCalendar(c) && c.start != MinTicks && c.attendees.Some?
    requires forall a, m :: a in c.attendees.value && m in a.meetings ==> Valid(m)
    ensures LiveWindows(c.attendees.value, c, clock).Ok?
  {
    forall a, m | a in c.attendees.value && m in a.meetings
      ensures !ClipFails(m, c, clock)
    {
      if m.end > c.start && m.start < c.end {
        ClipOverlap(m, c.start, c.end);
      }
    }
  }

  /** A clipped window is a slot of whole minutes. */
  lemma LiveWindowShape(m: TimeSlot, c: Calendar, clock: int, w: TimeSlot)
    requires LiveWindow(m, c, clock, w)
    ensures OnMinute(w.start) && OnMinute(w.end) && w.start <= w.end
  {
    var s := if m.start >= c.start then m.start else c.start;
    var e := if m.end <= c.end then m.end else c.end;
    NewStoresCalibrated(s, e);
  }

  /** Minute `k` is busy: it lies in [start, end) of some window. The end
      minute of a meeting is free again. */
  ghost predicate Busy(windows: seq<TimeSlot>, k: int) {
    exists w :: w in windows && w.start <= k < w.end
  }

  /** A whole minute is a key of a whole-minute series exactly when it lies
      in the series' half-open range. */
  lemma MinuteInSeries(from: int, to: int, k: int)
    requires OnMinute(from) && OnMinute(k)
    ensures k in SeriesKeys(from, to) <==> from <= k < to
  {
    if from <= k < to {
      var i := SeriesIndex(from, to, k);
    }
  }

  /** For clipped windows, a whole minute is marked by the fill exactly when
      it is busy. */
  lemma MarkedIffBusy(c: Calendar, clock: int, ws: seq<TimeSlot>, k: int)
    requires c.attendees.Some? && LiveWindows(c.attendees.value, c, clock) == Ok(ws)
    requires OnMinute(k)
    ensures InWindows(ws, k) <==> Busy(ws, k)
  {
    if InWindows(ws, k) {
      var w :| w in ws && k in SeriesKeys(w.start, w.end);
      var a, m :| a in c.attendees.value && m in a.meetings && LiveWindow(m, c, clock, w);
      LiveWindowShape(m, c, clock, w);
      MinuteInSeries(w.start, w.end, k);
    }
    if Busy(ws, k) {
      var w :| w in ws && w.start <= k < w.end;
      var a, m :| a in c.attendees.value && m in a.meetings && LiveWindow(m, c, clock, w);
      LiveWindowShape(m, c, clock, w);
      MinuteInSeries(w.start, w.end, k);
    }
  }

  // ---------------------------------------------------------------------
  // All available slots

  /** The minutes a query looks at: from the computation start up to the
      window end (`GetTimeSeriesByMinutes(TimeSlotComputationStartTime)`). */
  function QueryKeys(c: Calendar, clock: int): seq<int> {
    SeriesKeys(SeriesStart(TimeSlot(c.start, c.end), ComputationStart(c, clock)), c.end)
  }

  /** The query's timeline before any meeting is merged: every minute of
      the query Available. */
  function OpenTimeline(c: Calendar, clock: int): (r: Minutes)
    ensures forall k :: k in r <==> k in QueryKeys(c, clock)
    ensures forall k :: k in r ==> r[k] == Available
  {
    var series := TimeSeriesByMinutes(Some(TimeSlot(c.start, c.end)), Available, ComputationStart(c, clock));
    FillWith(Some(series), Available).value
  }

  /** `GetAvailability`: merge the windows into the timeline and, when any
      minute is left Available, scan the timeline in key order. */
  function GetAvailability(timeline: Minutes, windows: seq<TimeSlot>, keys: seq<int>): seq<TimeSlot> {
    var filled := FillWindows(timeline, windows);
    if exists k :: k in filled && filled[k] == Available then AvailableSlots(Ordered(filled, keys)) else []
  }

  /** `GetAllAvailableTimeSlots`. A window that has already ended has no
      free time. With attendees, their meetings are merged into the
      timeline and the free runs are scanned out; without attendees the
      whole query range is one slot, from its first to its last minute
      (`First()` on an empty range throws). */
  function GetAllAvailableTimeSlots(c: Calendar, clock: int): (r: Result<seq<TimeSlot>>)
    ensures c.end <= CurrentTime(clock) ==> r == Ok([])
  {
    if c.end <= CurrentTime(clock) then Ok([])
    else
      var timeline := OpenTimeline(c, clock);
      if c.attendees.Some? && |c.attendees.value| > 0 then
        match LiveWindows(c.attendees.value, c, clock)
        case Err(f) => Err(f)
        case Ok(ws) => Ok(GetAvailability(timeline, ws, QueryKeys(c, clock)))
      else
        var es := Ordered(timeline, QueryKeys(c, clock));
        if |es| == 0 then Err(EmptySequence)
        else
          match New(es[0].key, es[|es| - 1].key)
          case Ok(s) => Ok([s])
          case Err(f) => Err(f)
  }

  /** The queries the free-time theorems speak about: a valid calendar whose
      window has not ended, a computation start after tick 0, attendees, and
      a clipping pass that produced the windows `ws`. */
  ghost predicate AttendeeQuery(c: Calendar, clock: int, ws: seq<TimeSlot>) {
    && ValidCalendar(c) && CurrentTime(clock) < c.end
    && MinTicks < ComputationStart(c, clock)
    && c.attendees.Some? && |c.attendees.value| > 0
    && LiveWindows(c.attendees.value, c, clock) == Ok(ws)
  }

  /** The query range of a valid calendar is the series from the
      computation start to the window end. */
  lemma QueryRange(c: Calendar, clock: int)
    requires ValidCalendar(c) && CurrentTime(clock) < c.end && MinTicks < ComputationStart(c, clock)
    ensures QueryKeys(c, clock) == SeriesKeys(ComputationStart(c, clock), c.end)
    ensures SeriesTimeline(OpenTimeline(c, clock), ComputationStart(c, clock), c.end)
  {
  }

  /** The scan sees an empty run list when no minute is Available. */
  lemma NothingFreeNoSlots(timeline: Minutes, from: int, to: int)
    requires SeriesTimeline(timeline, from, to)
    requires forall k :: k in timeline ==> timeline[k] != Available
    ensures AvailableSlots(Ordered(timeline, SeriesKeys(from, to))) == []
  {
    var es := Ordered(timeline, SeriesKeys(from, to));
    var i := FirstIndexOf(es, 0, Available);
    assert i == |es| by {
      if i < |es| {
        assert false;
      }
    }
  }

  /** With attendees, the query's result is the availability computed from
      the open timeline and the clipped windows. */
  lemma AttendeeResult(c: Calendar, clock: int, ws: seq<TimeSlot>)
    requires AttendeeQuery(c, clock, ws)
    ensures GetAllAvailableTimeSlots(c, clock) == Ok(GetAvailability(OpenTimeline(c, clock), ws, QueryKeys(c, clock)))
  {
  }

  /** On a series timeline with every minute Available, the availability is
      the scan of the filled timeline, which keeps the series' keys. */
  lemma AvailabilityIsScan(timeline: Minutes, ws: seq<TimeSlot>, from: int, to: int)
    requires SeriesTimeline(timeline, from, to)
    ensures SeriesTimeline(FillWindows(timeline, ws), from, to)
    ensures GetAvailability(timeline, ws, SeriesKeys(from, to))
              == AvailableSlots(Ordered(FillWindows(timeline, ws), SeriesKeys(from, to)))
  {
    var filled := FillWindows(timeline, ws);
    if !(exists k :: k in filled && filled[k] == Available) {
      NothingFreeNoSlots(filled, from, to);
    }
  }

  /** In the filled timeline of an attendee query, a whole minute is free
      exactly when it lies in the query range and is not busy. */
  lemma FreeIffNotBusy(c: Calendar, clock: int, ws: seq<TimeSlot>, k: int)
    requires AttendeeQuery(c, clock, ws) && OnMinute(k)
    ensures FreeAt(FillWindows(OpenTimeline(c, clock), ws), k) <==> ComputationStart(c, clock) <= k < c.end && !Busy(ws, k)
  {
    QueryRange(c, clock);
    MinuteInSeries(ComputationStart(c, clock), c.end, k);
    MarkedIffBusy(c, clock, ws, k);
  }

  /** With attendees, the query returns the scan of the filled timeline
      over the query range; which of its minutes are free is
      `FreeIffNotBusy`. */
  lemma AttendeeSlots(c: Calendar, clock: int, ws: seq<TimeSlot>) returns (filled: Minutes)
    requires AttendeeQuery(c, clock, ws)
    ensures filled == FillWindows(OpenTimeline(c, clock), ws)
    ensures SeriesTimeline(filled, ComputationStart(c, clock), c.end)
    ensures GetAllAvailableTimeSlots(c, clock)
              == Ok(AvailableSlots(Ordered(filled, SeriesKeys(ComputationStart(c, clock), c.end))))
  {
    QueryRange(c, clock);
    AttendeeResult(c, clock, ws);
    AvailabilityIsScan(OpenTimeline(c, clock), ws, ComputationStart(c, clock), c.end);
    filled := FillWindows(OpenTimeline(c, clock), ws);
  }

  // ---------------------------------------------------------------------
  // What the free slots are

  /** The slots lie inside the query range, from the computation start to
      the window's last minute, bounded by whole minutes, and are listed in
      time order with at least one busy minute between neighbours. */
  lemma AvailableSlotsShape(c: Calendar, clock: int, ws: seq<TimeSlot>)
    requires AttendeeQuery(c, clock, ws)
    ensures GetAllAvailableTimeSlots(c, clock).Ok?
    ensures Within(GetAllAvailableTimeSlots(c, clock).value, ComputationStart(c, clock), c.end - TicksPerMinute)
    ensures Separated(GetAllAvailableTimeSlots(c, clock).value)
  {
    var filled := AttendeeSlots(c, clock, ws);
    SeriesScanShape(filled, ComputationStart(c, clock), c.end);
  }

  /** Soundness: every whole minute of a slot is in the query range and
      busy for nobody. */
  lemma AvailableSlotsFree(c: Calendar, clock: int, ws: seq<TimeSlot>, p: int, k: int)
    requires AttendeeQuery(c, clock, ws) && GetAllAvailableTimeSlots(c, clock).Ok?
    requires 0 <= p < |GetAllAvailableTimeSlots(c, clock).value|
    requires var s := GetAllAvailableTimeSlots(c, clock).value[p];
             s.start <= k <= s.end && OnMinute(k)
    ensures ComputationStart(c, clock) <= k < c.end && !Busy(ws, k)
  {
    var filled := AttendeeSlots(c, clock, ws);
    SeriesScanSound(filled, ComputationStart(c, clock), c.end, p, k);
    FreeIffNotBusy(c, clock, ws, k);
  }

  /** The one free minute the scan drops: the window's last minute, when it
      begins a free run of its own (it is the first minute of the query, or
      the minute before it is busy). */
  ghost predicate LoneLastMinute(c: Calendar, clock: int, ws: seq<TimeSlot>, k: int) {
    k == c.end - TicksPerMinute && (k == ComputationStart(c, clock) || Busy(ws, k - TicksPerMinute))
  }

  /** `slots` is the scan of a filled series timeline over [cs, end) in
      which a whole minute is free exactly when it is in range and busy for
      nobody: what an attendee query computes, with the calendar and the
      clock taken out of the picture. */
  ghost predicate Scanned(filled: Minutes, slots: seq<TimeSlot>, cs: int, end: int, ws: seq<TimeSlot>) {
    && SeriesTimeline(filled, cs, end)
    && slots == AvailableSlots(Ordered(filled, SeriesKeys(cs, end)))
    && forall k :: OnMinute(k) ==> (FreeAt(filled, k) <==> cs <= k < end && !Busy(ws, k))
  }

  /** An attendee query's filled timeline and slots are `Scanned`. */
  lemma QueryScanned(c: Calendar, clock: int, ws: seq<TimeSlot>) returns (filled: Minutes)
    requires AttendeeQuery(c, clock, ws)
    ensures GetAllAvailableTimeSlots(c, clock).Ok?
    ensures Scanned(filled, GetAllAvailableTimeSlots(c, clock).value, ComputationStart(c, clock), c.end, ws)
  {
    filled := AttendeeSlots(c, clock, ws);
    forall k | OnMinute(k)
      ensures FreeAt(filled, k) <==> ComputationStart(c, clock) <= k < c.end && !Busy(ws, k)
    {
      FreeIffNotBusy(c, clock, ws, k);
    }
  }

  /** Completeness over the scanned slots. */
  lemma ScannedCover(filled: Minutes, slots: seq<TimeSlot>, cs: int, end: int, ws: seq<TimeSlot>, k: int)
    returns (p: nat)
    requires Scanned(filled, slots, cs, end, ws)
    requires OnMinute(k) && cs <= k < end && !Busy(ws, k)
    requires !(k == end - TicksPerMinute && (k == cs || Busy(ws, k - TicksPerMinute)))
    ensures p < |slots| && slots[p].start <= k <= slots[p].end
  {
    if k == end - TicksPerMinute && k != cs {
      NeighbourMinutes(k);
      MinutesApart(cs, k);
    }
    assert !DroppedLastMinute(filled, cs, end, k);
    p := SeriesScanComplete(filled, cs, end, k);
  }

  /** Completeness: every whole minute of the query range that is busy for
      nobody lies in a slot, unless it is the lone last minute; `p` is that
      slot. */
  lemma AvailableSlotsCover(c: Calendar, clock: int, ws: seq<TimeSlot>, k: int) returns (p: nat)
    requires AttendeeQuery(c, clock, ws)
    requires OnMinute(k) && ComputationStart(c, clock) <= k < c.end && !Busy(ws, k)
    requires !LoneLastMinute(c, clock, ws, k)
    ensures GetAllAvailableTimeSlots(c, clock).Ok?
    ensures p < |GetAllAvailableTimeSlots(c, clock).value|
    ensures var s := GetAllAvailableTimeSlots(c, clock).value[p];
            s.start <= k <= s.end
  {
    var filled := QueryScanned(c, clock, ws);
    p := ScannedCover(filled, GetAllAvailableTimeSlots(c, clock).value, ComputationStart(c, clock), c.end, ws, k);
  }

  /** The lone last minute is in none of the scanned slots. */
  lemma ScannedLoneLastMissing(filled: Minutes, slots: seq<TimeSlot>, cs: int, end: int, ws: seq<TimeSlot>,
                               p: int, k: int)
    requires Scanned(filled, slots, cs, end, ws)
    requires 0 <= p < |slots| && k == end - TicksPerMinute && (k == cs || Busy(ws, k - TicksPerMinute))
    ensures !(slots[p].start <= k <= slots[p].end)
  {
    var s := slots[p];
    SeriesSlotBounds(filled, cs, end, p);
    if s.start <= k <= s.end {
      assert s.end == k;
      SeriesNoLoneLastSlot(filled, cs, end, p);
      MinutesApart(s.start, s.end);
      NeighbourMinutes(s.end);
      SeriesScanSound(filled, cs, end, p, k - TicksPerMinute);
      assert false;
    }
  }

  /** The exception is real: the lone last minute is in no slot, although
      it may be free. */
  lemma LoneLastMinuteMissing(c: Calendar, clock: int, ws: seq<TimeSlot>, p: int, k: int)
    requires AttendeeQuery(c, clock, ws) && GetAllAvailableTimeSlots(c, clock).Ok?
    requires 0 <= p < |GetAllAvailableTimeSlots(c, clock).value|
    requires LoneLastMinute(c, clock, ws, k)
    ensures var s := GetAllAvailableTimeSlots(c, clock).value[p];
            !(s.start <= k <= s.end)
  {
    var filled := QueryScanned(c, clock, ws);
    ScannedLoneLastMissing(filled, GetAllAvailableTimeSlots(c, clock).value, ComputationStart(c, clock), c.end, ws, p, k);
  }

  /** Maximality at the end over the scanned slots. */
  lemma ScannedMaximalEnd(filled: Minutes, slots: seq<TimeSlot>, cs: int, end: int, ws: seq<TimeSlot>, p: int)
    requires Scanned(filled, slots, cs, end, ws)
    requires 0 <= p < |slots| && slots[p].end + TicksPerMinute < end
    ensures Busy(ws, slots[p].end + TicksPerMinute)
  {
    SeriesSlotBounds(filled, cs, end, p);
    NeighbourMinutes(slots[p].end);
    SeriesScanMaximalEnd(filled, cs, end, p);
  }

  /** Maximality at the end: the minute after a slot, when it lies in the
      window, is busy. */
  lemma AvailableSlotsMaximalEnd(c: Calendar, clock: int, ws: seq<TimeSlot>, p: int)
    requires AttendeeQuery(c, clock, ws) && GetAllAvailableTimeSlots(c, clock).Ok?
    requires 0 <= p < |GetAllAvailableTimeSlots(c, clock).value|
    requires GetAllAvailableTimeSlots(c, clock).value[p].end + TicksPerMinute < c.end
    ensures Busy(ws, GetAllAvailableTimeSlots(c, clock).value[p].end + TicksPerMinute)
  {
    var filled := QueryScanned(c, clock, ws);
    ScannedMaximalEnd(filled, GetAllAvailableTimeSlots(c, clock).value, ComputationStart(c, clock), c.end, ws, p);
  }

  /** Maximality at the start over the scanned slots. */
  lemma ScannedMaximalStart(filled: Minutes, slots: seq<TimeSlot>, cs: int, end: int, ws: seq<TimeSlot>, p: int)
    requires Scanned(filled, slots, cs, end, ws)
    requires 0 <= p < |slots| && cs < slots[p].start
    ensures Busy(ws, slots[p].start - TicksPerMinute)
  {
    SeriesSlotBounds(filled, cs, end, p);
    NeighbourMinutes(slots[p].start);
    MinutesApart(cs, slots[p].start);
    SeriesScanMaximalStart(filled, cs, end, p);
  }

  /** Maximality at the start: the minute before a slot, when the slot
      does not begin the query range, is busy. */
  lemma AvailableSlotsMaximalStart(c: Calendar, clock: int, ws: seq<TimeSlot>, p: int)
    requires AttendeeQuery(c, clock, ws) && GetAllAvailableTimeSlots(c, clock).Ok?
    requires 0 <= p < |GetAllAvailableTimeSlots(c, clock).value|
    requires ComputationStart(c, clock) < GetAllAvailableTimeSlots(c, clock).value[p].start
    ensures Busy(ws, GetAllAvailableTimeSlots(c, clock).value[p].start - TicksPerMinute)
  {
    var filled := QueryScanned(c, clock, ws);
    ScannedMaximalStart(filled, GetAllAvailableTimeSlots(c, clock).value, ComputationStart(c, clock), c.end, ws, p);
  }

  /** A query range that begins at tick 0 has no free slot at all without
      attendees: the slot constructor rejects tick 0. */
  lemma NoAttendeesAtTickZero(c: Calendar, clock: int)
    requires ValidCalendar(c) && CurrentTime(clock) < c.end
    requires c.attendees.None? || |c.attendees.value| == 0
    requires ComputationStart(c, clock) == MinTicks
    ensures GetAllAvailableTimeSlots(c, clock) == Err(InvalidSlotStart)
  {
    var es := Ordered(OpenTimeline(c, clock), QueryKeys(c, clock));
    assert es[0].key == MinTicks;
  }

  /** Without attendees (a null or empty list) the query range is one free
      slot, from its first minute to the window's last minute. */
  lemma NoAttendeesOneSlot(c: Calendar, clock: int)
    requires ValidCalendar(c) && CurrentTime(clock) < c.end
    requires c.attendees.None? || |c.attendees.value| == 0
    requires MinTicks < ComputationStart(c, clock)
    ensures GetAllAvailableTimeSlots(c, clock) == Ok([TimeSlot(ComputationStart(c, clock), c.end - TicksPerMinute)])
  {
    var cs := ComputationStart(c, clock);
    OpenListingEnds(c, clock);
    MinutesApart(cs, c.end);
    NeighbourMinutes(c.end);
    DeconstructRoundTrip(TimeSlot(cs, c.end - TicksPerMinute));
  }

  /** The open timeline, listed in key order, runs from the computation
      start to the window's last minute. */
  lemma OpenListingEnds(c: Calendar, clock: int)
    requires ValidCalendar(c) && CurrentTime(clock) < c.end && MinTicks < ComputationStart(c, clock)
    ensures var es := Ordered(OpenTimeline(c, clock), QueryKeys(c, clock));
            |es| > 0 && es[0].key == ComputationStart(c, clock) && es[|es| - 1].key == c.end - TicksPerMinute
  {
    var cs := ComputationStart(c, clock);
    QueryRange(c, clock);
    SeriesListing(OpenTimeline(c, clock), cs, c.end);
    assert StepAt(Ordered(OpenTimeline(c, clock), SeriesKeys(cs, c.end)), cs, 0);
  }

  // ---------------------------------------------------------------------
  // First available slot

  /** The filter of `FindFirstAvailableSlot(meetingDuration)`. */
  function LongEnough(meetingDuration: int): TimeSlot -> bool {
    (t: TimeSlot) => Duration(t) >= meetingDuration
  }

  /** `FindFirstAvailableSlot(meetingDuration)`: among the available slots
      long enough for the meeting, the shortest, earliest first; `None`
      when none is long enough. */
  function FindFirstAvailableSlot(c: Calendar, clock: int, meetingDuration: int): (r: Result<Option<TimeSlot>>)
    ensures r.Err? <==> GetAllAvailableTimeSlots(c, clock).Err?
    ensures r.Ok? ==>
              var slots := GetAllAvailableTimeSlots(c, clock).value;
              && (r.value.None? <==> forall i :: 0 <= i < |slots| ==> Duration(slots[i]) < meetingDuration)
              && (r.value.Some? ==>
                    exists i :: IsTightestFit(slots, LongEnough(meetingDuration), i) && r.value.value == slots[i])
  {
    match GetAllAvailableTimeSlots(c, clock)
    case Err(f) => Err(f)
    case Ok(slots) => Ok(FindFirst(Some(slots), Some(LongEnough(meetingDuration))))
  }

  /** The slot found is long enough and wholly free. */
  lemma FirstAvailableSlotIsFree(c: Calendar, clock: int, ws: seq<TimeSlot>, meetingDuration: int, k: int)
    requires AttendeeQuery(c, clock, ws)
    requires FindFirstAvailableSlot(c, clock, meetingDuration).Ok?
    requires FindFirstAvailableSlot(c, clock, meetingDuration).value.Some?
    requires var s := FindFirstAvailableSlot(c, clock, meetingDuration).value.value;
             s.start <= k <= s.end && OnMinute(k)
    ensures Duration(FindFirstAvailableSlot(c, clock, meetingDuration).value.value) >= meetingDuration
    ensures ComputationStart(c, clock) <= k < c.end && !Busy(ws, k)
  {
    var slots := GetAllAvailableTimeSlots(c, clock).value;
    var i :| IsTightestFit(slots, LongEnough(meetingDuration), i)
             && FindFirstAvailableSlot(c, clock, meetingDuration).value.value == slots[i];
    AvailableSlotsFree(c, clock, ws, i, k);
  }

  // ---------------------------------------------------------------------
  // First available slot in a search range

  /** A calibrated difference of whole minutes is a whole number of
      minutes. */
  lemma WholeMinutesBetween(lo: int, hi: int)
    requires OnMinute(lo) && OnMinute(hi)
    ensures (hi - lo) / TicksPerMinute * TicksPerMinute == hi - lo
  {
    assert hi - lo == (hi / TicksPerMinute - lo / TicksPerMinute) * TicksPerMinute;
  }

  /** `ValidateSearchRange`: the checks in the source's order, the last
      three only when an upper bound is given (`toTime` not the default
      tick 0). The range must be a non-empty span of whole minutes that
      fits the meeting and ends after the current minute. */
  function ValidateSearchRange(meetingDuration: int, fromTime: int, toTime: int, clock: int): (r: Option<Fault>)
    ensures IsInvalidDate(fromTime) ==> r == Some(InvalidSearchStart)
    ensures !IsInvalidDate(fromTime) && meetingDuration <= 0 ==> r == Some(NonPositiveDuration)
    ensures !IsInvalidDate(fromTime) && meetingDuration > 0 && toTime != MinTicks ==>
              var lo := CalibrateToMinutes(fromTime);
              var hi := CalibrateToMinutes(toTime);
              && (hi <= lo ==> r == Some(SearchUpperNotAfterLower))
              && (lo < hi && meetingDuration * TicksPerMinute > hi - lo ==> r == Some(DurationLongerThanSearchRange))
              && (lo < hi && meetingDuration * TicksPerMinute <= hi - lo && hi <= CurrentTime(clock) ==>
                    r == Some(SearchUpperInPast))
    ensures r.None? <==>
              && !IsInvalidDate(fromTime) && meetingDuration > 0
              && (toTime != MinTicks ==>
                    var lo := CalibrateToMinutes(fromTime);
                    var hi := CalibrateToMinutes(toTime);
                    lo < hi && meetingDuration * TicksPerMinute <= hi - lo && CurrentTime(clock) < hi)
  {
    var lo := CalibrateToMinutes(fromTime);
    var hi := CalibrateToMinutes(toTime);
    WholeMinutesBetween(lo, hi);
    MinuteCounts(meetingDuration, (hi - lo) / TicksPerMinute);
    if IsInvalidDate(fromTime) then Some(InvalidSearchStart)
    else if meetingDuration <= 0 then Some(NonPositiveDuration)
    else if toTime != MinTicks && hi <= lo then Some(SearchUpperNotAfterLower)
    else if toTime != MinTicks && meetingDuration > (hi - lo) / TicksPerMinute then Some(DurationLongerThanSearchRange)
    else if toTime != MinTicks && hi <= CurrentTime(clock) then Some(SearchUpperInPast)
    else None
  }

  /** The search bounds: the lower bound is the calibrated `fromTime`, or
      the window start when `fromTime` lies before it; the upper bound is
      the calibrated `toTime` (the window end when left at the default), or
      the window end when `toTime` lies at or after it. */
  function SearchBounds(c: Calendar, fromTime: int, toTime: int): (r: (int, int))
  {
    var to := if toTime == MinTicks then c.end else toTime;
    (if fromTime >= c.start then CalibrateToMinutes(fromTime) else c.start,
     if to >= c.end then c.end else CalibrateToMinutes(to))
  }

  /** For a valid calendar both bounds are whole minutes inside the
      window. */
  lemma SearchBoundsInWindow(c: Calendar, fromTime: int, toTime: int)
    requires ValidCalendar(c)
    ensures var (lo, hi) := SearchBounds(c, fromTime, toTime);
            c.start <= lo && hi <= c.end && OnMinute(lo) && OnMinute(hi)
  {
    if fromTime >= c.start {
      CalibrateIsFloor(fromTime, c.start);
    }
  }

  /** The filter of the ranged search: long enough and inside the bounds. */
  function FitsRange(meetingDuration: int, lo: int, hi: int): TimeSlot -> bool {
    (t: TimeSlot) => Duration(t) >= meetingDuration && t.start >= lo && t.end <= hi
  }

  /** Every available slot passed through `TimeSlotMapper`. */
  function MapToRange(slots: seq<TimeSlot>, lo: int, hi: int): (r: seq<TimeSlot>)
    ensures |r| == |slots|
  {
    seq(|slots|, i requires 0 <= i < |slots| => TimeSlotMapper(slots[i], lo, hi))
  }

  /** `FindFirstAvailableSlot(meetingDuration, fromTime, toTime)` (the
      `ITimeSlot` overload passes the slot's bounds): validation first;
      then each available slot is clamped to the search bounds and the
      tightest one that is long enough and inside the bounds is chosen. */
  function FindFirstAvailableSlotIn(c: Calendar, clock: int, meetingDuration: int, fromTime: int, toTime: int)
    : (r: Result<Option<TimeSlot>>)
    ensures ValidateSearchRange(meetingDuration, fromTime, toTime, clock).Some? ==>
              r == Err(ValidateSearchRange(meetingDuration, fromTime, toTime, clock).value)
    ensures ValidateSearchRange(meetingDuration, fromTime, toTime, clock).None? ==>
              (r.Err? <==> GetAllAvailableTimeSlots(c, clock).Err?)
    ensures r.Ok? && r.value.Some? ==>
              var (lo, hi) := SearchBounds(c, fromTime, toTime);
              var s := r.value.value;
              && Duration(s) >= meetingDuration && lo <= s.start && s.end <= hi
              && exists i :: 0 <= i < |GetAllAvailableTimeSlots(c, clock).value| &&
                   s == TimeSlotMapper(GetAllAvailableTimeSlots(c, clock).value[i], lo, hi)
    ensures r.Ok? ==>
              var (lo, hi) := SearchBounds(c, fromTime, toTime);
              var ms := MapToRange(GetAllAvailableTimeSlots(c, clock).value, lo, hi);
              && (r.value.None? <==> forall i :: 0 <= i < |ms| ==> !FitsRange(meetingDuration, lo, hi)(ms[i]))
              && (r.value.Some? ==> exists i :: IsTightestFit(ms, FitsRange(meetingDuration, lo, hi), i) && r.value.value == ms[i])
  {
    match ValidateSearchRange(meetingDuration, fromTime, toTime, clock)
    case Some(f) => Err(f)
    case None =>
      var (lo, hi) := SearchBounds(c, fromTime, toTime);
      match GetAllAvailableTimeSlots(c, clock)
      case Err(f) => Err(f)
      case Ok(slots) => Ok(FindFirst(Some(MapToRange(slots, lo, hi)), Some(FitsRange(meetingDuration, lo, hi))))
  }

  /** The slot found in a range lies inside one available slot, so it is
      wholly free, and inside the search bounds. */
  lemma RangedSlotIsFree(c: Calendar, clock: int, ws: seq<TimeSlot>, meetingDuration: int, fromTime: int, toTime: int, k: int)
    requires AttendeeQuery(c, clock, ws)
    requires FindFirstAvailableSlotIn(c, clock, meetingDuration, fromTime, toTime).Ok?
    requires FindFirstAvailableSlotIn(c, clock, meetingDuration, fromTime, toTime).value.Some?
    requires var s := FindFirstAvailableSlotIn(c, clock, meetingDuration, fromTime, toTime).value.value;
             s.start <= k <= s.end && OnMinute(k)
    ensures SearchBounds(c, fromTime, toTime).0 <= k <= SearchBounds(c, fromTime, toTime).1
    ensures ComputationStart(c, clock) <= k < c.end && !Busy(ws, k)
  {
    var (lo, hi) := SearchBounds(c, fromTime, toTime);
    var slots := GetAllAvailableTimeSlots(c, clock).value;
    var s := FindFirstAvailableSlotIn(c, clock, meetingDuration, fromTime, toTime).value.value;
    var i :| 0 <= i < |slots| && s == TimeSlotMapper(slots[i], lo, hi);
    AvailableSlotsShape(c, clock, ws);
    assert slots[i].start <= slots[i].end;
    AvailableSlotsFree(c, clock, ws, i, k);
  }
}
