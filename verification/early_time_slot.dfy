/** MeetingCalendar/TimeSlot.cs: an earlier copy of the validated slot that
    carries its own sentinel test and an `AvailableDuration` property with the
    same "+1" rule. It is modelled with its own definitions and shown to agree
    with the current slot. */
module EarlyTimeSlot {
  import opened Outcomes
  import opened DateTimes
  import TimeSlots

  /** The class's private `IsInvalidDate` lambda. */
  predicate IsInvalid(t: int) {
    t == MinTicks || t == MaxTicks
  }

  /** The constructor: raw sentinel checks, then calibration, then the
      ordering check. It accepts and rejects exactly what the current slot
      constructor does and stores the same bounds. */
  function New(startTime: int, endTime: int): (r: Result<TimeSlots.TimeSlot>)
    ensures r == TimeSlots.New(startTime, endTime)
  {
    if IsInvalid(startTime) then Err(InvalidSlotStart)
    else if IsInvalid(endTime) then Err(InvalidSlotEnd)
    else if CalibrateToMinutes(startTime) > CalibrateToMinutes(endTime) then Err(SlotEndBeforeStart)
    else Ok(TimeSlots.TimeSlot(CalibrateToMinutes(startTime), CalibrateToMinutes(endTime)))
  }

  /** `AvailableDuration`: 0 when the bounds are equal, otherwise the whole
      minutes between them plus one, so a non-empty slot is never one
      minute long; the same number as `GetDuration`. */
  function AvailableDuration(s: TimeSlots.TimeSlot): (r: int)
    ensures TimeSlots.Valid(s) ==> r >= 0 && (r == 0 <==> s.start == s.end) && r != 1
    ensures TimeSlots.Valid(s) && s.start < s.end ==> s.start + (r - 1) * TicksPerMinute == s.end
    ensures r == TimeSlots.Duration(s)
  {
    if s.start == s.end then 0 else (s.end - s.start) / TicksPerMinute + 1
  }
}
