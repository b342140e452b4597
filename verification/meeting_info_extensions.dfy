/** MeetingCalendar/Extensions/MeetingInfoExtensions.cs: whether a meeting
    is over. The wall clock is the `clock` parameter (a raw tick count); the
    source calibrates it to the minute before comparing. */
module MeetingInfoExtensions {
  import opened Outcomes
  import opened DateTimes
  import opened TimeSlots

  /** The comparison at the heart of `IsOver`, for a meeting that exists. */
  predicate Over(meeting: TimeSlot, clock: int) {
    meeting.end <= CalibrateToMinutes(clock)
  }

  /** `IsOver`: null throws; otherwise the meeting is over once its end is
      at or before the current minute. */
  function IsOver(meeting: Option<TimeSlot>, clock: int): (r: Result<bool>)
    ensures meeting.None? <==> r == Err(NullArgument("meeting"))
    ensures r.Ok? ==> (r.value <==> meeting.value.end <= CalibrateToMinutes(clock))
  {
    match meeting
    case None => Err(NullArgument("meeting"))
    case Some(m) => Ok(Over(m, clock))
  }

  /** A meeting whose end is the current minute already counts as over,
      one that ended earlier is over, and one that is still running (its
      whole-minute end lies after the clock) is not. */
  lemma OverAroundNow(meeting: TimeSlot, clock: int)
    requires Valid(meeting)
    ensures meeting.end == CalibrateToMinutes(clock) ==> IsOver(Some(meeting), clock) == Ok(true)
    ensures meeting.end <= clock ==> IsOver(Some(meeting), clock) == Ok(true)
    ensures clock < meeting.end ==> IsOver(Some(meeting), clock) == Ok(false)
  {
    if meeting.end <= clock {
      CalibrateIsFloor(clock, meeting.end);
    }
  }
}
