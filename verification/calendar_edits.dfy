/** The operations of MeetingCalendar/Calendar.cs that change a calendar:
    moving its window and editing its attendee list.

    A void method becomes a function from the old calendar to the new one.
    `_attendees.Clear()` and `_attendees.Remove(...)` on a null list throw a
    `NullReferenceException`; the operations that call them require a list.
    Attendee identity is compared by value (the source compares object
    references), which differs only for two distinct attendees holding
    identical values. */
module CalendarEdits {
  import opened Outcomes
  import opened DateTimes
  import opened TimeSlots
  import opened TimeSlotExtensions
  import opened CollectionExtensions
  import opened Calendars

  // ---------------------------------------------------------------------
  // Moving the window

  /** The calendar as a move leaves it, and the exception the move threw,
      if any. The source updates its fields one after the other, so a move
      that throws still leaves the updates made before the throw. */
  datatype Moved = Moved(calendar: Calendar, fault: Option<Fault>)

  /** The attendee list after an optional `Clear()`. */
  function Cleared(c: Calendar, clearAttendees: bool): (r: Calendar)
    requires clearAttendees ==> c.attendees.Some?
    ensures r.start == c.start && r.end == c.end
    ensures r.attendees == if clearAttendees then Some([]) else c.attendees
  {
    if clearAttendees then c.(attendees := Some([])) else c
  }

  /** `MoveForward(clearAttendees)`: the window's duration is taken first,
      the list is cleared if asked, the start moves to the old end, and the
      end moves that many minutes later; that last step throws when it
      leaves the representable range, after the start has already moved. */
  function MoveForward(c: Calendar, clearAttendees: bool): (r: Moved)
    requires clearAttendees ==> c.attendees.Some?
    ensures r.calendar.start == c.end
    ensures r.calendar.attendees == if clearAttendees then Some([]) else c.attendees
    ensures r.fault.None? <==> InRange(c.end + WindowMinutes(c) * TicksPerMinute)
    ensures r.fault.None? ==> r.calendar.end - c.end == WindowMinutes(c) * TicksPerMinute
    ensures r.fault.Some? ==> r.fault == Some(OutOfRange) && r.calendar.end == c.end
  {
    var duration := WindowMinutes(c);
    var moved := Cleared(c, clearAttendees).(start := c.end);
    match AddMinutes(c.end, duration)
    case Ok(e) => Moved(moved.(end := e), None)
    case Err(f) => Moved(moved, Some(f))
  }

  /** `MoveBackward(clearAttendees)`: the end moves to the old start, and
      the start moves the window's duration earlier; that last step throws
      when it leaves the representable range, after the end has already
      moved. */
  function MoveBackward(c: Calendar, clearAttendees: bool): (r: Moved)
    requires clearAttendees ==> c.attendees.Some?
    ensures r.calendar.end == c.start
    ensures r.calendar.attendees == if clearAttendees then Some([]) else c.attendees
    ensures r.fault.None? <==> InRange(c.start - WindowMinutes(c) * TicksPerMinute)
    ensures r.fault.None? ==> c.start - r.calendar.start == WindowMinutes(c) * TicksPerMinute
    ensures r.fault.Some? ==> r.fault == Some(OutOfRange) && r.calendar.start == c.start
  {
    var duration := WindowMinutes(c);
    var moved := Cleared(c, clearAttendees).(end := c.start);
    match AddMinutes(c.start, -duration)
    case Ok(s) => Moved(moved.(start := s), None)
    case Err(f) => Moved(moved, Some(f))
  }

  /** `MoveForward(attendees)`: move forward clearing the list, then
      replace it; a move that throws never reaches the replacement. */
  function MoveForwardWith(c: Calendar, attendees: Option<seq<Attendee>>): (r: Moved)
    requires c.attendees.Some?
    ensures r.fault == MoveForward(c, true).fault
    ensures r.calendar.start == c.end
    ensures r.calendar.end == MoveForward(c, true).calendar.end
    ensures r.fault.None? ==> r.calendar.end - c.end == WindowMinutes(c) * TicksPerMinute
    ensures r.calendar.attendees == if r.fault.None? then attendees else Some([])
  {
    var m := MoveForward(c, true);
    if m.fault.Some? then m else Moved(AddAttendees(m.calendar, attendees), None)
  }

  /** `MoveBackward(attendees)`: move backward clearing the list, then
      replace it. */
  function MoveBackwardWith(c: Calendar, attendees: Option<seq<Attendee>>): (r: Moved)
    requires c.attendees.Some?
    ensures r.fault == MoveBackward(c, true).fault
    ensures r.calendar.end == c.start
    ensures r.calendar.start == MoveBackward(c, true).calendar.start
    ensures r.fault.None? ==> c.start - r.calendar.start == WindowMinutes(c) * TicksPerMinute
    ensures r.calendar.attendees == if r.fault.None? then attendees else Some([])
  {
    var m := MoveBackward(c, true);
    if m.fault.Some? then m else Moved(AddAttendees(m.calendar, attendees), None)
  }

  /** A successful forward move gives the adjacent valid window, which is
      one minute longer: the duration it moves by counts both end minutes
      of the old window. */
  lemma MoveForwardAdjoins(c: Calendar, clearAttendees: bool)
    requires ValidCalendar(c) && (clearAttendees ==> c.attendees.Some?)
    requires MoveForward(c, clearAttendees).fault.None?
    ensures var d := MoveForward(c, clearAttendees).calendar;
            && ValidCalendar(d) && d.start == c.end
            && WindowMinutes(d) == WindowMinutes(c) + 1
  {
    var d := MoveForward(c, clearAttendees).calendar;
    var n := WindowMinutes(c);
    MinutesApart(c.start, c.end);
    MinuteOffset(c.end, n);
    assert d.end - d.start == n * TicksPerMinute;
    assert (n * TicksPerMinute) / TicksPerMinute == n;
  }

  /** A successful backward move gives the adjacent valid window, one
      minute longer. */
  lemma MoveBackwardAdjoins(c: Calendar, clearAttendees: bool)
    requires ValidCalendar(c) && (clearAttendees ==> c.attendees.Some?)
    requires MoveBackward(c, clearAttendees).fault.None?
    ensures var d := MoveBackward(c, clearAttendees).calendar;
            && ValidCalendar(d) && d.end == c.start
            && WindowMinutes(d) == WindowMinutes(c) + 1
  {
    var d := MoveBackward(c, clearAttendees).calendar;
    var n := WindowMinutes(c);
    MinutesApart(c.start, c.end);
    MinuteOffset(c.start, -n);
    assert d.end - d.start == n * TicksPerMinute;
    assert (n * TicksPerMinute) / TicksPerMinute == n;
  }

  /** Moving forward and then back does not restore the window: the end
      returns, but the start lands two minutes early, one for each move's
      extra minute. */
  lemma MoveForwardThenBackward(c: Calendar)
    requires ValidCalendar(c)
    requires MoveForward(c, false).fault.None?
    requires MoveBackward(MoveForward(c, false).calendar, false).fault.None?
    ensures var d := MoveBackward(MoveForward(c, false).calendar, false).calendar;
            d.end == c.end && d.start == c.start - 2 * TicksPerMinute
  {
    var f := MoveForward(c, false).calendar;
    MoveForwardAdjoins(c, false);
    var n := WindowMinutes(c);
    MinutesApart(c.start, c.end);
    assert c.end - c.start == (n - 1) * TicksPerMinute;
    assert WindowMinutes(f) == n + 1;
  }

  /** A forward move that overflows leaves a calendar with an empty window:
      start and end both at the old end. Asked for its free time before that
      instant, such a calendar with an empty attendee list throws from
      `First()` on an empty timeline. */
  lemma MoveForwardOverflowEmptiesWindow(c: Calendar, clock: int)
    requires c.attendees.Some?
    requires MoveForward(c, true).fault.Some?
    requires CurrentTime(clock) < c.end
    ensures var d := MoveForward(c, true).calendar;
            && d.start == d.end && !ValidCalendar(d)
            && GetAllAvailableTimeSlots(d, clock) == Err(EmptySequence)
  {
    var d := MoveForward(c, true).calendar;
    assert QueryKeys(d, clock) == [];
  }

  // ---------------------------------------------------------------------
  // The attendee list

  /** `AddAttendees`: the list is replaced, null included. */
  function AddAttendees(c: Calendar, attendees: Option<seq<Attendee>>): (r: Calendar)
    ensures r.start == c.start && r.end == c.end && r.attendees == attendees
  {
    c.(attendees := attendees)
  }

  /** `AppendAttendees`: with no list yet, the additional list (possibly
      null) becomes the list; otherwise the additional attendees (none for
      null) are appended in place, in order. */
  function AppendAttendees(c: Calendar, additionalAttendees: Option<seq<Attendee>>): (r: Calendar)
    ensures r.start == c.start && r.end == c.end
    ensures c.attendees.None? ==> r.attendees == additionalAttendees
    ensures c.attendees.Some? ==>
              && r.attendees.Some?
              && |r.attendees.value| == |c.attendees.value| + (if additionalAttendees.Some? then |additionalAttendees.value| else 0)
              && r.attendees.value[..|c.attendees.value|] == c.attendees.value
    ensures c.attendees.Some? ==>
              r.attendees == Some(c.attendees.value + if additionalAttendees.Some? then additionalAttendees.value else [])
  {
    match c.attendees
    case None => c.(attendees := additionalAttendees)
    case Some(xs) =>
      var extra := if additionalAttendees.Some? then additionalAttendees.value else [];
      c.(attendees := Some(Concat(Some(xs), Some(extra)).value))
  }

  /** Appending is associative: appending `a` and then `b` is appending
      `a + b`, whatever the calendar held. */
  lemma AppendAttendeesAssociative(c: Calendar, a: seq<Attendee>, b: seq<Attendee>)
    ensures AppendAttendees(AppendAttendees(c, Some(a)), Some(b)) == AppendAttendees(c, Some(a + b))
  {
    if c.attendees.Some? {
      var xs := c.attendees.value;
      assert xs + a + b == xs + (a + b);
    }
  }

  /** Appending a null list to an existing list changes nothing. */
  lemma AppendNullAttendees(c: Calendar)
    requires c.attendees.Some?
    ensures AppendAttendees(c, None) == c
  {
    assert c.attendees.value + [] == c.attendees.value;
  }

  /** The first position in `xs` whose attendee satisfies `p`. */
  function IndexWhere(xs: seq<Attendee>, p: Attendee -> bool): (r: Option<nat>)
    ensures r.None? <==> forall i :: 0 <= i < |xs| ==> !p(xs[i])
    ensures r.Some? ==> r.value < |xs| && p(xs[r.value]) && forall j :: 0 <= j < r.value ==> !p(xs[j])
    decreases |xs|
  {
    if |xs| == 0 then None
    else if p(xs[0]) then Some(0)
    else
      match IndexWhere(xs[1..], p)
      case None => None
      case Some(i) => Some(i + 1)
  }

  /** `ICollection.Remove`: the first attendee equal to `attendee` is
      removed, the others keep their order; the result says whether one was
      found. */
  function RemoveAttendee(c: Calendar, attendee: Attendee): (r: (Calendar, bool))
    requires c.attendees.Some?
    ensures r.0.start == c.start && r.0.end == c.end && r.0.attendees.Some?
    ensures r.1 <==> attendee in c.attendees.value
    ensures !r.1 ==> r.0 == c
    ensures r.1 ==>
              exists i :: 0 <= i < |c.attendees.value| && c.attendees.value[i] == attendee
                          && attendee !in c.attendees.value[..i]
                          && r.0.attendees.value == c.attendees.value[..i] + c.attendees.value[i + 1..]
  {
    var xs := c.attendees.value;
    match IndexWhere(xs, (a: Attendee) => a == attendee)
    case None => (c, false)
    case Some(i) => (c.(attendees := Some(xs[..i] + xs[i + 1..])), true)
  }

  /** Removal takes exactly one copy of the attendee out of the list. */
  lemma RemoveAttendeeCount(c: Calendar, attendee: Attendee)
    requires c.attendees.Some?
    ensures var (d, removed) := RemoveAttendee(c, attendee);
            multiset(d.attendees.value) + (if removed then multiset{attendee} else multiset{})
              == multiset(c.attendees.value)
  {
    var xs := c.attendees.value;
    var (d, removed) := RemoveAttendee(c, attendee);
    if removed {
      var i :| 0 <= i < |xs| && xs[i] == attendee && d.attendees.value == xs[..i] + xs[i + 1..];
      assert xs[i..] == [xs[i]] + xs[i + 1..];
      assert xs == xs[..i] + xs[i..];
    }
  }

  /** `RemoveAttendee(attendeeId)`: the first attendee with that id is
      looked up and then removed. */
  function RemoveAttendeeById(c: Calendar, attendeeId: int): (r: (Calendar, bool))
    requires c.attendees.Some?
  {
    match IndexWhere(c.attendees.value, (a: Attendee) => a.id == attendeeId)
    case None => (c, false)
    case Some(i) => RemoveAttendee(c, c.attendees.value[i])
  }

  /** `RemoveAttendee(attendeeName, attendeeEmailId)`: the first attendee
      with that name and email is looked up and then removed. */
  function RemoveAttendeeByContact(c: Calendar, attendeeName: string, attendeeEmailId: string): (r: (Calendar, bool))
    requires c.attendees.Some?
  {
    match IndexWhere(c.attendees.value, (a: Attendee) => a.email == attendeeEmailId && a.name == attendeeName)
    case None => (c, false)
    case Some(i) => RemoveAttendee(c, c.attendees.value[i])
  }

  /** Looking up by a key and then removing by value removes exactly the
      attendee looked up: an equal attendee earlier in the list would have
      had the same key and been found first. */
  lemma RemoveFoundIsFirstMatch(c: Calendar, p: Attendee -> bool, i: nat)
    requires c.attendees.Some? && i < |c.attendees.value| && p(c.attendees.value[i])
    requires forall j :: 0 <= j < i ==> !p(c.attendees.value[j])
    ensures RemoveAttendee(c, c.attendees.value[i]).1
    ensures RemoveAttendee(c, c.attendees.value[i]).0.attendees.value
              == c.attendees.value[..i] + c.attendees.value[i + 1..]
  {
    var xs := c.attendees.value;
    var j :| 0 <= j < |xs| && xs[j] == xs[i] && xs[i] !in xs[..j]
             && RemoveAttendee(c, xs[i]).0.attendees.value == xs[..j] + xs[j + 1..];
  }

  /** Removing by id succeeds exactly when some attendee has the id, and
      then removes the first such attendee, keeping the others in order. */
  lemma RemoveAttendeeByIdRemovesFirst(c: Calendar, attendeeId: int)
    requires c.attendees.Some?
    ensures var xs := c.attendees.value;
            var (d, removed) := RemoveAttendeeById(c, attendeeId);
            && d.start == c.start && d.end == c.end
            && (removed <==> exists a :: a in xs && a.id == attendeeId)
            && (!removed ==> d == c)
            && (removed ==>
                  exists i ::
                    && 0 <= i < |xs| && xs[i].id == attendeeId
                    && (forall j :: 0 <= j < i ==> xs[j].id != attendeeId)
                    && d.attendees.value == xs[..i] + xs[i + 1..])
  {
    var xs := c.attendees.value;
    var p := (a: Attendee) => a.id == attendeeId;
    match IndexWhere(xs, p)
    case None =>
    case Some(i) =>
      RemoveFoundIsFirstMatch(c, p, i);
  }

  /** Removing by name and email succeeds exactly when some attendee has
      both, and then removes the first such attendee. */
  lemma RemoveAttendeeByContactRemovesFirst(c: Calendar, attendeeName: string, attendeeEmailId: string)
    requires c.attendees.Some?
    ensures var xs := c.attendees.value;
            var (d, removed) := RemoveAttendeeByContact(c, attendeeName, attendeeEmailId);
            && d.start == c.start && d.end == c.end
            && (removed <==> exists a :: a in xs && a.email == attendeeEmailId && a.name == attendeeName)
            && (!removed ==> d == c)
            && (removed ==>
                  exists i ::
                    && 0 <= i < |xs| && xs[i].email == attendeeEmailId && xs[i].name == attendeeName
                    && (forall j :: 0 <= j < i ==> !(xs[j].email == attendeeEmailId && xs[j].name == attendeeName))
                    && d.attendees.value == xs[..i] + xs[i + 1..])
  {
    var xs := c.attendees.value;
    var p := (a: Attendee) => a.email == attendeeEmailId && a.name == attendeeName;
    match IndexWhere(xs, p)
    case None =>
    case Some(i) =>
      RemoveFoundIsFirstMatch(c, p, i);
  }
}
