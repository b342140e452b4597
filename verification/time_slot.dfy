/** The validated time slot of MeetingCalendar/Models/TimeSlot.cs and its
    duration rule `GetDuration` from
    MeetingCalendar/Extensions/TimeSlotExtensions.cs.

    A slot is a closed interval [start, end] of whole minutes. Meetings are
    slots too (`MeetingInfo` derives from `TimeSlot`), and so is a calendar
    window when it is treated as an `ITimeSlot`. */
module TimeSlots {
  import opened Outcomes
  import opened DateTimes

  datatype TimeSlot = TimeSlot(start: int, end: int)

  /** What every constructed slot satisfies: both bounds are representable,
      lie on whole minutes and are ordered. Zero-length slots are allowed. */
  predicate Valid(s: TimeSlot) {
    && InRange(s.start) && InRange(s.end)
    && OnMinute(s.start) && OnMinute(s.end)
    && s.start <= s.end
  }

  /** The constructor. The sentinel checks look at the raw arguments, the
      ordering check at the calibrated ones. */
  function New(startTime: int, endTime: int): (r: Result<TimeSlot>)
    ensures IsInvalidDate(startTime) ==> r == Err(InvalidSlotStart)
    ensures !IsInvalidDate(startTime) && IsInvalidDate(endTime) ==> r == Err(InvalidSlotEnd)
    ensures r.Ok? <==>
              && !IsInvalidDate(startTime) && !IsInvalidDate(endTime)
              && CalibrateToMinutes(startTime) <= CalibrateToMinutes(endTime)
    ensures r.Ok? ==> r.value.start <= startTime && r.value.end <= endTime
    ensures r.Ok? && InRange(startTime) && InRange(endTime) ==> Valid(r.value)
  {
    if IsInvalidDate(startTime) then Err(InvalidSlotStart)
    else if IsInvalidDate(endTime) then Err(InvalidSlotEnd)
    else
      var s := CalibrateToMinutes(startTime);
      var e := CalibrateToMinutes(endTime);
      if s > e then Err(SlotEndBeforeStart) else Ok(TimeSlot(s, e))
  }

  /** `Deconstruct` hands back the stored bounds. */
  function Deconstruct(s: TimeSlot): (r: (int, int))
  {
    (s.start, s.end)
  }

  /** `GetDuration`: 0 for a zero-length slot, otherwise the whole minutes
      between the bounds plus one (the closed interval's last minute counts).
      Every duration in the model goes through this one function. */
  function Duration(s: TimeSlot): int
  {
    if s.start == s.end then 0 else (s.end - s.start) / TicksPerMinute + 1
  }

  /** The stored bounds are exactly the calibrated arguments. */
  lemma NewStoresCalibrated(startTime: int, endTime: int)
    requires New(startTime, endTime).Ok?
    ensures New(startTime, endTime).value
              == TimeSlot(CalibrateToMinutes(startTime), CalibrateToMinutes(endTime))
  {
  }

  /** Rebuilding a valid slot from its deconstructed bounds gives the same
      slot back: the constructor accepts exactly what it produces. Slots
      starting at tick 0 are the exception, because 0 is the `MinValue`
      sentinel. */
  lemma {:induction false} DeconstructRoundTrip(s: TimeSlot)
    requires Valid(s) && s.start != MinTicks
    ensures New(Deconstruct(s).0, Deconstruct(s).1) == Ok(s)
  {
    CalibratedIsNeverMax(s.end);
    CalibrateIdempotent(s.start);
    CalibrateIdempotent(s.end);
  }

  /** Because the order check runs after calibration, a raw start later
      than the raw end is accepted when both fall in the same minute. */
  lemma ReversedWithinMinuteAccepted(startTime: int, endTime: int)
    requires !IsInvalidDate(startTime) && !IsInvalidDate(endTime)
    requires CalibrateToMinutes(startTime) == CalibrateToMinutes(endTime)
    ensures New(startTime, endTime) == Ok(TimeSlot(CalibrateToMinutes(endTime), CalibrateToMinutes(endTime)))
  {
  }

  /** The duration rule: never negative, zero exactly for zero-length slots,
      and otherwise at least two, so a duration of exactly one minute never
      occurs. On whole-minute bounds it counts the minutes of [start, end]. */
  lemma DurationShape(s: TimeSlot)
    requires Valid(s)
    ensures Duration(s) >= 0
    ensures Duration(s) == 0 <==> s.start == s.end
    ensures Duration(s) != 1
    ensures s.start < s.end ==> s.start + (Duration(s) - 1) * TicksPerMinute == s.end
  {
  }
}
