/** The first version of the calendar, MeetingCalender/Calender.cs, with its
    slot type MeetingCalender/TimeSlot.cs.

    It differs from MeetingCalendar/Calendar.cs in these ways:
    - the slot type truncates to the minute and checks only the order;
    - durations carry no +1;
    - the timeline is `bool`, false standing for Available;
    - the raw clock is compared where the newer code calibrates it first;
    - the found slots are appended to a list the calendar keeps, which is
      never cleared.

    A void method here is a function from the old calendar to the new one,
    and a query that also changes the calendar returns the new calendar,
    whose `slots` are what the query hands back. Meetings are `TimeSlot`s of
    whole minutes, as the legacy slot constructor leaves them. */
module LegacyCalendar {
  import opened Outcomes
  import opened DateTimes
  import opened TimeSlots
  import opened TimeSlotExtensions
  import opened CollectionExtensions
  import opened MeetingInfoExtensions
  import opened Timeline
  import opened SlotScan
  import Calendars

  // ---------------------------------------------------------------------
  // The legacy slot

  /** The legacy `TimeSlot` constructor. Both bounds drop their seconds,
      and the slot is rejected only when the truncated start is after the
      truncated end. There is no sentinel check. */
  function NewSlot(startTime: int, endTime: int): (r: Result<TimeSlot>)
    ensures r.Ok? <==> CalibrateToMinutes(startTime) <= CalibrateToMinutes(endTime)
    ensures r.Err? ==> r.fault == SlotEndBeforeStart
    ensures r.Ok? ==>
              && OnMinute(r.value.start) && r.value.start <= startTime < r.value.start + TicksPerMinute
              && OnMinute(r.value.end) && r.value.end <= endTime < r.value.end + TicksPerMinute
  {
    var s := CalibrateToMinutes(startTime);
    var e := CalibrateToMinutes(endTime);
    if s > e then Err(SlotEndBeforeStart) else Ok(TimeSlot(s, e))
  }

  /** Away from the sentinels the legacy constructor and the validated one
      agree. At a sentinel, a slot the validated constructor rejects (such
      as the scan's provisional slot ending at `MaxValue`) is accepted. */
  lemma NewSlotAgreesAwayFromSentinels(startTime: int, endTime: int)
    ensures !IsInvalidDate(startTime) && !IsInvalidDate(endTime) ==> NewSlot(startTime, endTime) == New(startTime, endTime)
    ensures InRange(startTime) ==> NewSlot(startTime, MaxTicks).Ok? && New(startTime, MaxTicks).Err?
  {
    if InRange(startTime) {
      CalibrateMonotone(startTime, MaxTicks);
    }
  }

  /** `AvailableDuration`: the whole minutes between the bounds, truncated
      toward zero as the `(int)` cast of `TotalMinutes` does, with no +1. */
  function AvailableDuration(s: TimeSlot): (r: int)
    ensures s.start <= s.end ==> r >= 0
    ensures s.start == s.end ==> r == 0
    ensures OnMinute(s.start) && OnMinute(s.end) ==> r * TicksPerMinute == s.end - s.start
  {
    var d := s.end - s.start;
    WholeMinuteDifference(s.start, s.end);
    if d >= 0 then d / TicksPerMinute else -((-d) / TicksPerMinute)
  }

  /** Whole minutes lie a whole number of minutes apart, either way. */
  lemma WholeMinuteDifference(a: int, b: int)
    ensures OnMinute(a) && OnMinute(b) ==> (b - a) % TicksPerMinute == 0 && (a - b) % TicksPerMinute == 0
  {
    if OnMinute(a) && OnMinute(b) {
      assert b - a == (b / TicksPerMinute - a / TicksPerMinute) * TicksPerMinute;
      MinutesAreWhole(b / TicksPerMinute - a / TicksPerMinute);
      MinutesAreWhole(a / TicksPerMinute - b / TicksPerMinute);
    }
  }

  /** On a non-empty slot of whole minutes, the newer `GetDuration` is one
      more than the legacy `AvailableDuration`. On an empty slot both are
      0. */
  lemma DurationsDiffer(s: TimeSlot)
    requires OnMinute(s.start) && OnMinute(s.end) && s.start <= s.end
    ensures s.start == s.end ==> Duration(s) == AvailableDuration(s) == 0
    ensures s.start != s.end ==> Duration(s) == AvailableDuration(s) + 1
  {
  }

  // ---------------------------------------------------------------------
  // The legacy calendar

  /** An attendee: a name and the meetings they attend. */
  datatype Attendee = Attendee(name: string, meetings: seq<TimeSlot>)

  /** The calendar's state: its window, its attendee list (`None` for
      null), and the `_availableMeetingSlots` list that the queries append
      to. */
  datatype Calender = Calender(start: int, end: int, attendees: Option<seq<Attendee>>, slots: seq<TimeSlot>)

  /** What the constructor leaves for in-range arguments. */
  predicate ValidCalender(c: Calender) {
    ValidWindow(c.start, c.end)
  }

  /** The constructors. Both bounds are calibrated, and the window must not
      be empty. The slot list starts empty. The two-argument overload
      passes `None`. */
  function NewCalender(startTime: int, endTime: int, attendees: Option<seq<Attendee>>): (r: Result<Calender>)
    ensures r.Ok? <==> CalibrateToMinutes(startTime) < CalibrateToMinutes(endTime)
    ensures r.Err? ==> r.fault == CalendarEndNotAfterStart
    ensures r.Ok? ==> r.value.attendees == attendees && r.value.slots == []
    ensures r.Ok? && InRange(startTime) && InRange(endTime) ==> ValidCalender(r.value)
  {
    var s := CalibrateToMinutes(startTime);
    var e := CalibrateToMinutes(endTime);
    if s >= e then Err(CalendarEndNotAfterStart) else Ok(Calender(s, e, attendees, []))
  }

  /** The legacy constructor keeps the window the newer one builds. It
      also accepts the sentinels that the newer one rejects. */
  lemma NewCalenderAgrees(startTime: int, endTime: int, attendees: Option<seq<Calendars.Attendee>>)
    ensures var legacy := NewCalender(startTime, endTime, LegacyAttendees(attendees));
            var modern := Calendars.NewCalendar(startTime, endTime, attendees);
            && (modern.Ok? ==> legacy.Ok? && legacy.value.start == modern.value.start && legacy.value.end == modern.value.end)
            && (legacy.Ok? && !IsInvalidDate(startTime) && !IsInvalidDate(endTime) ==> modern.Ok?)
  {
  }

  /** The legacy view of the newer calendar's attendees: the same people
      with the same meetings, in the same order. */
  function LegacyAttendees(attendees: Option<seq<Calendars.Attendee>>): Option<seq<Attendee>> {
    match attendees
    case None => None
    case Some(xs) => Some(seq(|xs|, i requires 0 <= i < |xs| => Attendee(xs[i].name, xs[i].meetings)))
  }

  /** `AddAttendees`: the list is replaced. Nothing else changes. */
  function AddAttendees(c: Calender, attendees: Option<seq<Attendee>>): (r: Calender)
    ensures r.attendees == attendees
    ensures r.start == c.start && r.end == c.end && r.slots == c.slots
  {
    c.(attendees := attendees)
  }

  /** `AppendAttendees`: LINQ `Concat` onto the current list. It throws
      when either list is null, so appending to a calendar built without
      attendees fails. */
  function AppendAttendees(c: Calender, additionalAttendees: Option<seq<Attendee>>): (r: Result<Calender>)
    ensures c.attendees.None? ==> r == Err(NullArgument("first"))
    ensures c.attendees.Some? && additionalAttendees.None? ==> r == Err(NullArgument("second"))
    ensures r.Ok? ==> r.value.attendees == Some(c.attendees.value + additionalAttendees.value)
    ensures r.Ok? ==> r.value.start == c.start && r.value.end == c.end && r.value.slots == c.slots
  {
    match Concat(c.attendees, additionalAttendees)
    case Err(f) => Err(f)
    case Ok(xs) => Ok(c.(attendees := Some(xs)))
  }

  /** Two appends are one append of both lists. */
  lemma AppendAttendeesTwice(c: Calender, a: seq<Attendee>, b: seq<Attendee>)
    requires c.attendees.Some?
    ensures AppendAttendees(c, Some(a)).Ok?
    ensures AppendAttendees(AppendAttendees(c, Some(a)).value, Some(b)) == AppendAttendees(c, Some(a + b))
  {
    assert c.attendees.value + a + b == c.attendees.value + (a + b);
  }

  // ---------------------------------------------------------------------
  // All available slots

  /** Where the query range begins. The window start is kept when it is
      not before the raw clock; otherwise the current minute is used. */
  function QueryStart(windowStart: int, clock: int): (r: int)
    ensures OnMinute(windowStart) ==>
              && r >= windowStart && r >= CalibrateToMinutes(clock)
              && (r == windowStart || r == CalibrateToMinutes(clock))
  {
    if windowStart >= clock then windowStart else CalibrateToMinutes(clock)
  }

  /** The legacy `GetTimeSeriesByMinutes(from, to)`: every minute of
      [from, to), each Available (false). */
  function OpenTimeline(from: int, to: int): (r: Minutes)
    ensures forall k :: k in r <==> k in SeriesKeys(from, to)
    ensures forall k :: k in r ==> r[k] == Available
  {
    map k | k in SeriesKeys(from, to) :: Available
  }

  /** The span a meeting marks. Its bounds are clamped into the calendar
      window by comparisons only, so a meeting outside the window gives a
      span with no minutes. */
  function Span(m: TimeSlot, windowStart: int, windowEnd: int): (r: TimeSlot)
    ensures windowStart <= r.start && r.end <= windowEnd
    ensures m.start <= r.start && r.end <= m.end
  {
    TimeSlot(if m.start >= windowStart then m.start else windowStart, if m.end <= windowEnd then m.end else windowEnd)
  }

  /** The spans one attendee's meetings contribute. Only a meeting that
      ends after the raw clock counts. */
  function MeetingSpans(meetings: seq<TimeSlot>, windowStart: int, windowEnd: int, clock: int): (r: seq<TimeSlot>)
    ensures forall w :: w in r <==>
              exists m :: m in meetings && clock < m.end && w == Span(m, windowStart, windowEnd)
    decreases |meetings|
  {
    if |meetings| == 0 then []
    else
      var m := meetings[0];
      var rest := MeetingSpans(meetings[1..], windowStart, windowEnd, clock);
      assert forall x :: x in meetings <==> x == m || x in meetings[1..];
      if clock < m.end then [Span(m, windowStart, windowEnd)] + rest else rest
  }

  /** The spans of all attendees, attendee by attendee. */
  function AttendeeSpans(attendees: seq<Attendee>, windowStart: int, windowEnd: int, clock: int): (r: seq<TimeSlot>)
    ensures forall w :: w in r <==>
              exists a, m :: a in attendees && m in a.meetings && clock < m.end && w == Span(m, windowStart, windowEnd)
    decreases |attendees|
  {
    if |attendees| == 0 then []
    else
      var a := attendees[0];
      assert forall x :: x in attendees <==> x == a || x in attendees[1..];
      MeetingSpans(a.meetings, windowStart, windowEnd, clock) + AttendeeSpans(attendees[1..], windowStart, windowEnd, clock)
  }

  /** The slots one query of a window that has not ended finds. The
      timeline from the query start is built. With attendees, the spans
      are OR-merged into it and, if any minute is left free, the free runs
      are scanned out. The scan builds slots with the legacy constructor
      and opens each run with a provisional end of `MaxValue`; neither can
      throw, as `ScanSlotsConstructible` shows. Without attendees, the
      whole range is one slot. */
  function QuerySlots(windowStart: int, windowEnd: int, attendees: Option<seq<Attendee>>, clock: int): (r: Result<seq<TimeSlot>>)
    ensures r.Err? ==> windowEnd <= QueryStart(windowStart, clock) || attendees.None? || |attendees.value| == 0
  {
    var from := QueryStart(windowStart, clock);
    var timeline := OpenTimeline(from, windowEnd);
    if attendees.Some? && |attendees.value| > 0 then
      var spans := AttendeeSpans(attendees.value, windowStart, windowEnd, clock);
      Ok(Calendars.GetAvailability(timeline, spans, SeriesKeys(from, windowEnd)))
    else
      var es := Ordered(timeline, SeriesKeys(from, windowEnd));
      if |es| == 0 then Err(EmptySequence)
      else
        match NewSlot(es[0].key, es[|es| - 1].key)
        case Ok(s) => Ok([s])
        case Err(f) => Err(f)
  }

  /** `GetAllAvailableTimeSlots`. A window that has ended hands back the
      kept list as it is. Otherwise the slots the query finds are appended
      to the kept list, which is handed back. */
  function GetAllAvailableTimeSlots(c: Calender, clock: int): (r: Result<Calender>)
    ensures c.end <= CalibrateToMinutes(clock) ==> r == Ok(c)
    ensures r.Ok? ==> r.value.start == c.start && r.value.end == c.end && r.value.attendees == c.attendees
    ensures r.Ok? ==> c.slots <= r.value.slots
  {
    if c.end <= CalibrateToMinutes(clock) then Ok(c)
    else
      match QuerySlots(c.start, c.end, c.attendees, clock)
      case Ok(found) => Ok(c.(slots := c.slots + found))
      case Err(f) => Err(f)
  }

  /** A valid calendar's query never throws. */
  lemma QuerySucceeds(c: Calender, clock: int)
    requires ValidCalender(c)
    ensures GetAllAvailableTimeSlots(c, clock).Ok?
  {
    if CalibrateToMinutes(clock) < c.end && (c.attendees.None? || |c.attendees.value| == 0) {
      OpenEndsOrdered(QueryStart(c.start, clock), c.end);
    }
  }

  /** A non-empty open timeline, listed in key order, makes a legacy slot
      from its first to its last key. */
  lemma OpenEndsOrdered(from: int, to: int)
    requires from < to
    ensures var es := Ordered(OpenTimeline(from, to), SeriesKeys(from, to));
            |es| > 0 && NewSlot(es[0].key, es[|es| - 1].key).Ok?
  {
    var es := Ordered(OpenTimeline(from, to), SeriesKeys(from, to));
    var last := |es| - 1;
    SeriesKeysAt(from, to, last);
    MinuteCounts(0, last);
    CalibrateMonotone(es[0].key, es[last].key);
  }

  /** The slots one query appends to the kept list. */
  function Found(c: Calender, clock: int): seq<TimeSlot>
    requires GetAllAvailableTimeSlots(c, clock).Ok?
  {
    GetAllAvailableTimeSlots(c, clock).value.slots[|c.slots|..]
  }

  /** The kept list is never cleared. Asking again at the same clock
      appends the same slots a second time. */
  lemma RepeatedQueriesAccumulate(c: Calender, clock: int)
    requires GetAllAvailableTimeSlots(c, clock).Ok?
    ensures var once := GetAllAvailableTimeSlots(c, clock).value;
            && GetAllAvailableTimeSlots(once, clock).Ok?
            && GetAllAvailableTimeSlots(once, clock).value.slots == c.slots + Found(c, clock) + Found(c, clock)
  {
    var once := GetAllAvailableTimeSlots(c, clock).value;
    assert once.slots == c.slots + Found(c, clock);
  }

  // ---------------------------------------------------------------------
  // Agreement with the newer calendar

  /** The conditions under which the two versions are compared. The
      newer calendar has the same window and the same attendees. The
      window starts after tick 0, which is the newer version's sentinel.
      Every meeting is a slot of whole minutes. */
  ghost predicate Comparable(c: Calender, d: Calendars.Calendar) {
    && ValidCalender(c) && MinTicks < c.start
    && d == Calendars.Calendar(c.start, c.end, d.attendees)
    && c.attendees == LegacyAttendees(d.attendees)
    && (d.attendees.Some? ==> forall a, m :: a in d.attendees.value && m in a.meetings ==> Valid(m))
  }

  /** Both versions start the query at the same minute. The raw
      comparison with the clock decides as the calibrated one would. */
  lemma SameQueryStart(c: Calender, d: Calendars.Calendar, clock: int)
    requires Comparable(c, d)
    ensures QueryStart(c.start, clock) == Calendars.ComputationStart(d, clock)
  {
    BeforeMinuteIffCalibratedBefore(clock, c.start);
  }

  /** A meeting counts for the legacy query (it ends after the raw clock)
      exactly when the newer one does not consider it over. */
  lemma CountsIffNotOver(m: TimeSlot, clock: int)
    requires Valid(m)
    ensures clock < m.end <==> !Over(m, clock)
  {
    BeforeMinuteIffCalibratedBefore(clock, m.end);
  }

  /** A legacy attendee has the meetings of the newer attendee at the same
      position, and the other way round. */
  lemma AttendeeCounterpart(xs: seq<Calendars.Attendee>, i: int)
    requires 0 <= i < |xs|
    ensures |LegacyAttendees(Some(xs)).value| == |xs|
    ensures LegacyAttendees(Some(xs)).value[i].meetings == xs[i].meetings
  {
  }

  /** A key of a whole-minute series is a whole minute. */
  lemma SeriesKeyOnMinute(from: int, to: int, k: int)
    requires OnMinute(from) && k in SeriesKeys(from, to)
    ensures OnMinute(k)
  {
    var ks := SeriesKeys(from, to);
    var i :| 0 <= i < |ks| && ks[i] == k;
    SeriesKeysAt(from, to, i);
    MinuteOffset(from, i);
  }

  /** A meeting that counts for the legacy query and whose span holds a
      minute is live for the newer one, with the span as its window. */
  lemma SpanIsLiveWindow(c: Calender, d: Calendars.Calendar, clock: int, m: TimeSlot)
    requires Comparable(c, d) && Valid(m) && clock < m.end
    requires Span(m, c.start, c.end).start < Span(m, c.start, c.end).end
    ensures Calendars.LiveWindow(m, d, clock, Span(m, c.start, c.end))
  {
    ClipOverlap(m, c.start, c.end);
    CountsIffNotOver(m, clock);
  }

  /** Which meeting put a minute into the legacy spans: one of attendee
      `i`'s meetings that counts, whose span holds the minute. */
  lemma SpanWitness(attendees: seq<Attendee>, windowStart: int, windowEnd: int, clock: int, k: int)
    returns (i: nat, m: TimeSlot)
    requires InWindows(AttendeeSpans(attendees, windowStart, windowEnd, clock), k)
    ensures i < |attendees| && m in attendees[i].meetings && clock < m.end
    ensures k in SeriesKeys(Span(m, windowStart, windowEnd).start, Span(m, windowStart, windowEnd).end)
  {
    var w :| w in AttendeeSpans(attendees, windowStart, windowEnd, clock) && k in SeriesKeys(w.start, w.end);
    var a, m' :| a in attendees && m' in a.meetings && clock < m'.end && w == Span(m', windowStart, windowEnd);
    i :| 0 <= i < |attendees| && attendees[i] == a;
    m := m';
  }

  /** A minute inside the clipped window of a live meeting is marked by the
      newer version's windows. */
  lemma LiveWindowMarks(d: Calendars.Calendar, clock: int, ws: seq<TimeSlot>, b: Calendars.Attendee, m: TimeSlot, w: TimeSlot, k: int)
    requires d.attendees.Some? && Calendars.LiveWindows(d.attendees.value, d, clock) == Ok(ws)
    requires b in d.attendees.value && m in b.meetings && OnMinute(k)
    requires Calendars.LiveWindow(m, d, clock, w) && w.start <= k < w.end
    ensures InWindows(ws, k)
  {
    assert w in ws;
    Calendars.MarkedIffBusy(d, clock, ws, k);
  }

  /** A minute the legacy spans mark is marked by the newer version's
      clipped windows. */
  lemma LegacyMarkIsLive(c: Calender, d: Calendars.Calendar, clock: int, ws: seq<TimeSlot>, k: int)
    requires Comparable(c, d) && d.attendees.Some?
    requires Calendars.LiveWindows(d.attendees.value, d, clock) == Ok(ws) && OnMinute(k)
    requires InWindows(AttendeeSpans(c.attendees.value, c.start, c.end, clock), k)
    ensures InWindows(ws, k)
  {
    var i, m := SpanWitness(c.attendees.value, c.start, c.end, clock, k);
    AttendeeCounterpart(d.attendees.value, i);
    var b := d.attendees.value[i];
    assert m in b.meetings && Valid(m);
    var w := Span(m, c.start, c.end);
    assert OnMinute(w.start);
    Calendars.MinuteInSeries(w.start, w.end, k);
    SpanIsLiveWindow(c, d, clock, m);
    LiveWindowMarks(d, clock, ws, b, m, w, k);
  }

  /** A minute the newer version's clipped windows mark is marked by the
      legacy spans. */
  lemma LiveMarkIsLegacy(c: Calender, d: Calendars.Calendar, clock: int, ws: seq<TimeSlot>, k: int)
    requires Comparable(c, d) && d.attendees.Some?
    requires Calendars.LiveWindows(d.attendees.value, d, clock) == Ok(ws) && OnMinute(k)
    requires InWindows(ws, k)
    ensures InWindows(AttendeeSpans(c.attendees.value, c.start, c.end, clock), k)
  {
    var i, m, w := LiveWitness(d, clock, ws, k);
    AttendeeCounterpart(d.attendees.value, i);
    var a := c.attendees.value[i];
    assert m in a.meetings && Valid(m);
    SpanOfLiveWindow(c, d, clock, m, w);
    Calendars.MinuteInSeries(w.start, w.end, k);
    SpanMarks(c.attendees.value, c.start, c.end, clock, a, m, k);
  }

  /** The attendee, meeting and clipped window behind a minute the newer
      version's windows mark. */
  lemma LiveWitness(d: Calendars.Calendar, clock: int, ws: seq<TimeSlot>, k: int) returns (i: nat, m: TimeSlot, w: TimeSlot)
    requires d.attendees.Some? && Calendars.LiveWindows(d.attendees.value, d, clock) == Ok(ws)
    requires OnMinute(k) && InWindows(ws, k)
    ensures i < |d.attendees.value| && m in d.attendees.value[i].meetings
    ensures Calendars.LiveWindow(m, d, clock, w) && w.start <= k < w.end
  {
    Calendars.MarkedIffBusy(d, clock, ws, k);
    var w' :| w' in ws && w'.start <= k < w'.end;
    var b, m' :| b in d.attendees.value && m' in b.meetings && Calendars.LiveWindow(m', d, clock, w');
    var i' :| 0 <= i' < |d.attendees.value| && d.attendees.value[i'] == b;
    i, m, w := i', m', w';
  }

  /** A live clipped window of the newer version is the legacy span of the
      same meeting, and that meeting ends after the clock. */
  lemma SpanOfLiveWindow(c: Calender, d: Calendars.Calendar, clock: int, m: TimeSlot, w: TimeSlot)
    requires Comparable(c, d) && Valid(m) && Calendars.LiveWindow(m, d, clock, w)
    ensures clock < m.end && w == Span(m, c.start, c.end)
  {
    ClipOverlap(m, c.start, c.end);
    CountsIffNotOver(m, clock);
  }

  /** A minute of a counted meeting's span is marked by the legacy spans. */
  lemma SpanMarks(attendees: seq<Attendee>, windowStart: int, windowEnd: int, clock: int, a: Attendee, m: TimeSlot, k: int)
    requires a in attendees && m in a.meetings && clock < m.end
    requires k in SeriesKeys(Span(m, windowStart, windowEnd).start, Span(m, windowStart, windowEnd).end)
    ensures InWindows(AttendeeSpans(attendees, windowStart, windowEnd, clock), k)
  {
    assert Span(m, windowStart, windowEnd) in AttendeeSpans(attendees, windowStart, windowEnd, clock);
  }

  /** With attendees, the slots a legacy query finds are the newer
      version's result. */
  lemma AttendeeQueriesAgree(c: Calender, d: Calendars.Calendar, clock: int)
    requires Comparable(c, d) && CalibrateToMinutes(clock) < c.end
    requires d.attendees.Some? && |d.attendees.value| > 0
    ensures Calendars.GetAllAvailableTimeSlots(d, clock).Ok?
    ensures QuerySlots(c.start, c.end, c.attendees, clock) == Calendars.GetAllAvailableTimeSlots(d, clock)
  {
    Calendars.LiveWindowsSucceed(d, clock);
    var ws := Calendars.LiveWindows(d.attendees.value, d, clock).value;
    SameQueryStart(c, d, clock);
    var cs := Calendars.ComputationStart(d, clock);
    Calendars.QueryRange(d, clock);
    var timeline := OpenTimeline(cs, c.end);
    assert timeline == Calendars.OpenTimeline(d, clock);
    var spans := AttendeeSpans(c.attendees.value, c.start, c.end, clock);
    forall k | k in timeline
      ensures InWindows(spans, k) <==> InWindows(ws, k)
    {
      SeriesKeyOnMinute(cs, c.end, k);
      if InWindows(spans, k) {
        LegacyMarkIsLive(c, d, clock, ws, k);
      }
      if InWindows(ws, k) {
        LiveMarkIsLegacy(c, d, clock, ws, k);
      }
    }
    FillWindowsAgree(timeline, spans, ws);
  }

  /** Without attendees, the one slot of a legacy query is the newer
      version's one slot. */
  lemma EmptyQueriesAgree(c: Calender, d: Calendars.Calendar, clock: int)
    requires Comparable(c, d) && CalibrateToMinutes(clock) < c.end
    requires d.attendees.None? || |d.attendees.value| == 0
    ensures QuerySlots(c.start, c.end, c.attendees, clock) == Calendars.GetAllAvailableTimeSlots(d, clock)
  {
    SameQueryStart(c, d, clock);
    AttendeeCounts(d.attendees);
    EmptyQueryOneSlot(c.start, c.end, c.attendees, clock);
    Calendars.NoAttendeesOneSlot(d, clock);
  }

  /** The legacy query appends to its kept list exactly the slots the
      newer calendar returns for the same window, attendees and clock.
      So every property proved of the newer query (slots in order,
      separated, wholly free, maximal) holds for what the legacy query
      finds. */
  lemma AgreesWithCalendar(c: Calender, d: Calendars.Calendar, clock: int)
    requires Comparable(c, d)
    ensures Calendars.GetAllAvailableTimeSlots(d, clock).Ok?
    ensures GetAllAvailableTimeSlots(c, clock) == Ok(c.(slots := c.slots + Calendars.GetAllAvailableTimeSlots(d, clock).value))
  {
    if c.end <= CalibrateToMinutes(clock) {
      assert c.slots + [] == c.slots;
    } else if d.attendees.Some? && |d.attendees.value| > 0 {
      AttendeeQueriesAgree(c, d, clock);
    } else {
      EmptyQueriesAgree(c, d, clock);
    }
  }

  /** The scan over a legacy timeline builds its slots and its provisional
      slots with the legacy constructor, and neither throws: each found
      slot is stored unchanged, and a run opened with a `MaxValue` end is
      accepted. */
  lemma ScanSlotsConstructible(timeline: Minutes, from: int, to: int, p: int)
    requires SeriesTimeline(timeline, from, to) && InRange(to)
    requires 0 <= p < |AvailableSlots(Ordered(timeline, SeriesKeys(from, to)))|
    ensures var s := AvailableSlots(Ordered(timeline, SeriesKeys(from, to)))[p];
            NewSlot(s.start, s.end) == Ok(s) && NewSlot(s.start, MaxTicks).Ok?
  {
    var s := AvailableSlots(Ordered(timeline, SeriesKeys(from, to)))[p];
    SeriesSlotBounds(timeline, from, to, p);
    CalibrateIdempotent(s.start);
    CalibrateIdempotent(s.end);
    CalibrateMonotone(s.start, MaxTicks);
  }

  // ---------------------------------------------------------------------
  // First available slot

  /** The order the legacy selection sorts by: `AvailableDuration`, then
      start. */
  predicate SortsBefore(a: TimeSlot, b: TimeSlot) {
    AvailableDuration(a) < AvailableDuration(b) || (AvailableDuration(a) == AvailableDuration(b) && a.start < b.start)
  }

  /** `i` is where the stable `OrderBy(AvailableDuration).ThenBy(StartTime)`
      followed by `FirstOrDefault(AvailableDuration >= meetingDuration)`
      lands. Slot `i` is long enough. No long-enough slot sorts strictly
      before it, and it sorts strictly before every long-enough slot
      listed earlier. */
  ghost predicate IsFirstFit(xs: seq<TimeSlot>, meetingDuration: int, i: int) {
    && 0 <= i < |xs| && AvailableDuration(xs[i]) >= meetingDuration
    && (forall j :: 0 <= j < |xs| && AvailableDuration(xs[j]) >= meetingDuration ==> !SortsBefore(xs[j], xs[i]))
    && (forall j :: 0 <= j < i && AvailableDuration(xs[j]) >= meetingDuration ==> SortsBefore(xs[i], xs[j]))
  }

  /** The position of that slot, scanning left to right and keeping the
      first of equally good candidates. */
  function FirstFitIndex(xs: seq<TimeSlot>, meetingDuration: int): (r: Option<nat>)
    ensures r.None? <==> forall i :: 0 <= i < |xs| ==> AvailableDuration(xs[i]) < meetingDuration
    ensures r.Some? ==> IsFirstFit(xs, meetingDuration, r.value)
    decreases |xs|
  {
    if |xs| == 0 then None
    else
      var r := FirstFitIndex(xs[..|xs| - 1], meetingDuration);
      FirstFitStep(xs, meetingDuration, r);
      FitAfter(xs, meetingDuration, r)
  }

  /** One step of the scan: the last slot replaces the best fit so far
      when it is long enough and sorts strictly before it. */
  function FitAfter(xs: seq<TimeSlot>, meetingDuration: int, r: Option<nat>): Option<nat>
    requires |xs| > 0 && (r.Some? ==> r.value < |xs|)
  {
    var last := xs[|xs| - 1];
    if AvailableDuration(last) >= meetingDuration && (r.None? || SortsBefore(last, xs[r.value])) then Some(|xs| - 1) else r
  }

  /** The step keeps the first fit of the scanned prefix a first fit. */
  lemma FirstFitStep(xs: seq<TimeSlot>, meetingDuration: int, r: Option<nat>)
    requires |xs| > 0
    requires r.None? <==> forall i :: 0 <= i < |xs| - 1 ==> AvailableDuration(xs[i]) < meetingDuration
    requires r.Some? ==> IsFirstFit(xs[..|xs| - 1], meetingDuration, r.value)
    ensures r.Some? ==> r.value < |xs|
    ensures var f := FitAfter(xs, meetingDuration, r);
            && (f.None? <==> forall i :: 0 <= i < |xs| ==> AvailableDuration(xs[i]) < meetingDuration)
            && (f.Some? ==> IsFirstFit(xs, meetingDuration, f.value))
  {
  }

  /** `GetFirstAvailableSlot`. The query runs first, and the calendar keeps
      its effect on the slot list. Then the whole kept list is searched.
      A list of exactly one slot hands that slot back whatever the
      requested duration. A longer list hands back the first fit by
      (`AvailableDuration`, start) among the slots at least
      `meetingDuration` long. An empty list gives null. */
  function GetFirstAvailableSlot(c: Calender, clock: int, meetingDuration: int): (r: Result<(Calender, Option<TimeSlot>)>)
    ensures r.Err? <==> GetAllAvailableTimeSlots(c, clock).Err?
    ensures r.Ok? ==> r.value.0 == GetAllAvailableTimeSlots(c, clock).value
    ensures r.Ok? ==>
              var slots := r.value.0.slots;
              && (|slots| == 0 ==> r.value.1.None?)
              && (|slots| == 1 ==> r.value.1 == Some(slots[0]))
              && (|slots| > 1 ==>
                    (r.value.1.None? <==> forall i :: 0 <= i < |slots| ==> AvailableDuration(slots[i]) < meetingDuration))
              && (|slots| > 1 && r.value.1.Some? ==>
                    exists i :: IsFirstFit(slots, meetingDuration, i) && r.value.1.value == slots[i])
  {
    match GetAllAvailableTimeSlots(c, clock)
    case Err(f) => Err(f)
    case Ok(after) =>
      var slots := after.slots;
      if |slots| == 0 then Ok((after, None))
      else if |slots| == 1 then Ok((after, Some(slots[0])))
      else
        match FirstFitIndex(slots, meetingDuration)
        case None => Ok((after, None))
        case Some(i) => Ok((after, Some(slots[i])))
  }

  /** A calendar without attendees finds one slot, from the query start
      to the window's last minute. */
  lemma NoAttendeesOneSlot(c: Calender, d: Calendars.Calendar, clock: int)
    requires Comparable(c, d) && CalibrateToMinutes(clock) < c.end
    requires d.attendees.None? || |d.attendees.value| == 0
    ensures GetAllAvailableTimeSlots(c, clock)
              == Ok(c.(slots := c.slots + [TimeSlot(QueryStart(c.start, clock), c.end - TicksPerMinute)]))
  {
    AttendeeCounts(d.attendees);
    EmptyQueryOneSlot(c.start, c.end, c.attendees, clock);
  }

  /** The legacy list has as many attendees as the newer one. */
  lemma AttendeeCounts(attendees: Option<seq<Calendars.Attendee>>)
    ensures LegacyAttendees(attendees).Some? <==> attendees.Some?
    ensures attendees.Some? ==> |LegacyAttendees(attendees).value| == |attendees.value|
  {
  }

  /** Without attendees the legacy query range becomes one slot, from the
      query start to the window's last minute. */
  lemma EmptyQueryOneSlot(windowStart: int, windowEnd: int, attendees: Option<seq<Attendee>>, clock: int)
    requires attendees.None? || |attendees.value| == 0
    requires OnMinute(windowStart) && OnMinute(windowEnd) && QueryStart(windowStart, clock) < windowEnd
    ensures QuerySlots(windowStart, windowEnd, attendees, clock)
              == Ok([TimeSlot(QueryStart(windowStart, clock), windowEnd - TicksPerMinute)])
  {
    var from := QueryStart(windowStart, clock);
    var ks := SeriesKeys(from, windowEnd);
    var es := Ordered(OpenTimeline(from, windowEnd), ks);
    assert OnMinute(from);
    MinutesApart(ks[|ks| - 1], windowEnd);
    assert es[0].key == from && es[|es| - 1].key == windowEnd - TicksPerMinute;
    NeighbourMinutes(windowEnd);
    CalibrateIdempotent(from);
    CalibrateIdempotent(windowEnd - TicksPerMinute);
  }

  /** So on a fresh calendar without attendees the legacy selection hands
      that slot back for every requested duration, even one longer than
      the slot. */
  lemma OneSlotIgnoresDuration(c: Calender, d: Calendars.Calendar, clock: int, meetingDuration: int)
    requires Comparable(c, d) && c.slots == [] && CalibrateToMinutes(clock) < c.end
    requires d.attendees.None? || |d.attendees.value| == 0
    ensures var s := TimeSlot(QueryStart(c.start, clock), c.end - TicksPerMinute);
            && GetFirstAvailableSlot(c, clock, meetingDuration) == Ok((c.(slots := [s]), Some(s)))
            && AvailableDuration(s) * TicksPerMinute == c.end - TicksPerMinute - QueryStart(c.start, clock)
  {
    var s := TimeSlot(QueryStart(c.start, clock), c.end - TicksPerMinute);
    NoAttendeesOneSlot(c, d, clock);
    assert c.slots + [s] == [s];
    NeighbourMinutes(c.end);
  }

  /** Asking a second time sees that slot twice, so the one-slot rule no
      longer applies: the slot comes back only if it is long enough. */
  lemma SecondAskChecksDuration(c: Calender, d: Calendars.Calendar, clock: int, meetingDuration: int)
    requires Comparable(c, d) && c.slots == [] && CalibrateToMinutes(clock) < c.end
    requires d.attendees.None? || |d.attendees.value| == 0
    ensures var s := TimeSlot(QueryStart(c.start, clock), c.end - TicksPerMinute);
            var once := c.(slots := [s]);
            && GetFirstAvailableSlot(once, clock, meetingDuration).Ok?
            && GetFirstAvailableSlot(once, clock, meetingDuration).value.0.slots == [s, s]
            && (GetFirstAvailableSlot(once, clock, meetingDuration).value.1 == Some(s) <==> AvailableDuration(s) >= meetingDuration)
  {
    var s := TimeSlot(QueryStart(c.start, clock), c.end - TicksPerMinute);
    var once := c.(slots := [s]);
    NoAttendeesOneSlot(once, d, clock);
    assert once.slots + [s] == [s, s];
    FirstSlotOfMany(once, clock, meetingDuration, once.(slots := [s, s]));
    TwinFirstFit(s, meetingDuration);
  }

  /** Once the query has left more than one slot, the selection is the
      first fit among them. */
  lemma FirstSlotOfMany(c: Calender, clock: int, meetingDuration: int, after: Calender)
    requires GetAllAvailableTimeSlots(c, clock) == Ok(after) && |after.slots| > 1
    ensures GetFirstAvailableSlot(c, clock, meetingDuration).Ok?
    ensures GetFirstAvailableSlot(c, clock, meetingDuration).value.0 == after
    ensures GetFirstAvailableSlot(c, clock, meetingDuration).value.1.Some? <==> FirstFitIndex(after.slots, meetingDuration).Some?
    ensures FirstFitIndex(after.slots, meetingDuration).Some? ==>
              GetFirstAvailableSlot(c, clock, meetingDuration).value.1 == Some(after.slots[FirstFitIndex(after.slots, meetingDuration).value])
  {
  }

  /** Of two copies of one slot the first fit is a copy, when the slot is
      long enough. */
  lemma TwinFirstFit(s: TimeSlot, meetingDuration: int)
    ensures FirstFitIndex([s, s], meetingDuration).Some? <==> AvailableDuration(s) >= meetingDuration
    ensures FirstFitIndex([s, s], meetingDuration).Some? ==> FirstFitIndex([s, s], meetingDuration).value < 2
  {
    assert [s, s][0] == s && [s, s][1] == s;
  }
}
