# Free-slot finder: a Dafny model

This project models the core of the MeetingCalendar library, which finds
the free time of a group of attendees inside a calendar window.

A `Calendar` holds a window of whole minutes and a list of attendees, each
with their meetings. `GetAllAvailableTimeSlots` finds the free time in four
steps:

1. It builds a per-minute timeline from the later of the window start and
   the current minute up to the window end, with every minute Available.
2. For every meeting that is not yet over, it clips the meeting to the
   window and marks the minutes it covers Scheduled.
3. It scans the timeline in key order and emits each free run as a
   `TimeSlot` from its first to its last minute.
4. `FindFirstAvailableSlot` then picks the tightest slot that fits a
   requested duration, with ties going to the earliest start. One overload
   restricts the search to a validated sub-range.

Around this core, the project also models:
- calibration of timestamps to the minute and the `MinValue`/`MaxValue`
  sentinel checks;
- the validated `TimeSlot` and its duration rule;
- meeting clipping and minute series;
- the dictionary and collection helpers;
- moving the window and editing the attendee list.

Two older versions are modelled as well. One is the legacy calendar
(MeetingCalender/Calender.cs), which has a `bool` timeline, no +1 in the
duration and a result list that grows with every call. The other is an
earlier copy of the slot type (MeetingCalendar/TimeSlot.cs).

Modelling choices:
- A `DateTime` is an integer tick count. `MinValue` is 0, `MaxValue` is
  3155378975999999999 and one minute is 600000000 ticks. Calibration is
  `t - t % 600000000`.
- A thrown exception is an `Err` carrying a `Fault` that names the failing
  check. A null reference is `None`.
- The wall clock is a parameter, `clock`, and is read once per query.
- A void method that changes a calendar is a function from the old
  calendar to the new one.
- The timeline is a map from minute to `Available`/`Scheduled`, listed in
  key order as a sequence of entries for the scan.

Modules, one per source file:

| file | module | models |
|---|---|---|
| outcomes.dfy | `Outcomes` | `Option`, `Result` and the `Fault` of each check |
| date_times.dfy | `DateTimes` | `CalibrateToMinutes`, `IsInvalidDate`, `AddMinutes` |
| time_slot.dfy | `TimeSlots` | the validated `TimeSlot`, `Deconstruct`, `GetDuration` |
| early_time_slot.dfy | `EarlyTimeSlot` | the earlier validated slot type |
| time_slot_extensions.dfy | `TimeSlotExtensions` | clipping, minute series, `FindFirst`, `TimeSlotMapper` |
| dictionary_extensions.dfy | `DictionaryExtensions` | `FillWith`, `ToConcurrentDictionary` |
| collection_extensions.dfy | `CollectionExtensions` | in-place `Concat` |
| meeting_info_extensions.dfy | `MeetingInfoExtensions` | `IsOver` |
| timeline.dfy | `Timeline` | the availability timeline and the fill |
| slot_scan.dfy | `SlotScan` | `CalculateAvailableSlots` and what the scan emits |
| calendar.dfy | `Calendars` | construction, the queries, `ValidateSearchRange` |
| calendar_edits.dfy | `CalendarEdits` | moving the window, editing the attendees |
| legacy_calendar.dfy | `LegacyCalendar` | the legacy calendar and its slot type |

Source files that the model relies on but does not include:
- `TimeSlotMapper`: the calendar calls it, but the extensions file that
  defines it is not part of this model. It is rebuilt from its tests.
- The legacy `MeetingInfo`: it is not part of this model either. Legacy
  meetings are taken to be slots of whole minutes, as the legacy slot
  constructor leaves them.

## Model

| member | source | states |
|---|---|---|
| DateTimes.CalibrateToMinutes | MeetingCalendar/Extensions/DateTimeExtensions.cs:23-24 | the result is a whole minute; it is at most the input and less than one minute below it; an in-range input gives an in-range result |
| DateTimes.CalibrateIsFloor | MeetingCalendar/Extensions/DateTimeExtensions.cs:23-24 | the calibration is the latest whole minute not after the input |
| DateTimes.CalibrateIdempotent | MeetingCalendar/Extensions/DateTimeExtensions.cs:23-24 | calibrating twice is calibrating once; a tick is unchanged exactly when it already lies on a minute |
| DateTimes.CalibrateMonotone | MeetingCalendar/Extensions/DateTimeExtensions.cs:23-24 | a <= b implies cal(a) <= cal(b) |
| DateTimes.CalibratedIsNeverMax | MeetingCalendar/Extensions/DateTimeExtensions.cs:31-32 | no calibrated in-range instant is the `MaxValue` sentinel: it lies at least one minute minus one tick below it |
| DateTimes.BeforeMinuteIffCalibratedBefore | MeetingCalender/Calender.cs:100 | a raw instant lies before a whole minute exactly when its calibration does |
| DateTimes.AddMinutes | MeetingCalendar/Calendar.cs:292-303 | `AddMinutes` succeeds exactly when the result is representable, and then it moves by that many minutes |
| TimeSlots.New | MeetingCalendar/Models/TimeSlot.cs:32-45 | a sentinel start throws first, then a sentinel end; otherwise it succeeds exactly when cal(start) <= cal(end); the stored bounds are not after the raw ones and form a valid slot |
| TimeSlots.NewStoresCalibrated | MeetingCalendar/Models/TimeSlot.cs:40-41 | the stored bounds are exactly the calibrated arguments |
| TimeSlots.ReversedWithinMinuteAccepted | MeetingCalendar/Models/TimeSlot.cs:34-44 | a raw start later than the raw end in the same minute is accepted, because the order check runs after calibration |
| TimeSlots.DeconstructRoundTrip | MeetingCalendar/Models/TimeSlot.cs:52-56 | rebuilding a valid slot from its deconstructed bounds gives the same slot, unless it starts at tick 0 |
| TimeSlots.DurationShape | MeetingCalendar/Extensions/TimeSlotExtensions.cs:28-29 | the duration is never negative, is 0 exactly for equal bounds, is never 1, and otherwise counts the minutes of [start, end] |
| EarlyTimeSlot.New | MeetingCalendar/TimeSlot.cs:35-48 | the earlier slot constructor accepts, rejects and stores exactly as the current one does |
| EarlyTimeSlot.AvailableDuration | MeetingCalendar/TimeSlot.cs:28 | for a valid slot the earlier `AvailableDuration` is 0 exactly for equal bounds, never 1, and otherwise one more than the whole minutes between the bounds; it equals `GetDuration` |
| TimeSlotExtensions.Clip | MeetingCalendar/Extensions/TimeSlotExtensions.cs:38-51 | clipping gives null exactly when the meeting ends by the window start or starts at or after the window end |
| TimeSlotExtensions.ClipOverlap | MeetingCalendar/Extensions/TimeSlotExtensions.cs:43-50 | for an overlapping valid meeting, clipping fails only when both starts are tick 0; otherwise it is [max(starts), min(ends)], valid and inside both |
| TimeSlotExtensions.SeriesKeys | MeetingCalendar/Extensions/TimeSlotExtensions.cs:60-74 | the series is empty exactly when to <= from; otherwise it starts at `from` and its last key is within a minute of `to` |
| TimeSlotExtensions.SeriesKeysMembership | MeetingCalendar/Extensions/TimeSlotExtensions.cs:60-74 | a tick is a key exactly when it lies in [from, to) a whole number of minutes after `from` |
| TimeSlotExtensions.SeriesKeysCount | MeetingCalendar/Extensions/TimeSlotExtensions.cs:60-74 | an n-minute span of whole minutes yields n keys |
| TimeSlotExtensions.TimeSeriesByMinutes | MeetingCalendar/Extensions/TimeSlotExtensions.cs:60-74 | a null slot gives an empty map; otherwise the keys are the series from the series start (the slot start when left at the default), each mapped to the given value |
| TimeSlotExtensions.GetTimeSeriesByMinutes | MeetingCalendar/Extensions/TimeSlotExtensions.cs:60-74 | the source's `while` loop builds exactly that map |
| TimeSlotExtensions.TightestFitIndex | MeetingCalendar/Extensions/TimeSlotExtensions.cs:82-92 | there is no index exactly when nothing is accepted; otherwise the index is the tightest fit by (duration, start), first of equals |
| TimeSlotExtensions.FindFirst | MeetingCalendar/Extensions/TimeSlotExtensions.cs:82-92 | a null source gives null; a slot is found exactly when one matches; the found slot is the tightest fit; a null predicate accepts all |
| TimeSlotExtensions.TightestFitIsLeast | MeetingCalendar/Extensions/TimeSlotExtensions.cs:82-92 | the chosen slot sorts strictly before every other match, or that match is an identical later twin |
| TimeSlotExtensions.TimeSlotMapper | MeetingCalendarTest/Extensions/TimeSlotExtensionsTests.cs:75-101 | a slot straddling both bounds is clamped to them, a slot inside the bounds is unchanged, and the result always lies inside the original |
| DictionaryExtensions.FillWith | MeetingCalendar/Extensions/DictionaryExtensions.cs:28-40 | null throws `ArgumentNullException`; the keys are unchanged and every value is the fill value |
| DictionaryExtensions.ToConcurrentDictionary | MeetingCalendar/Extensions/DictionaryExtensions.cs:49-59 | null throws; the copy has exactly the input's key/value pairs |
| DictionaryExtensions.FillWithRebuildsSeries | MeetingCalendar/Extensions/DictionaryExtensions.cs:37-39 | filling a minute series with a value equals building the series with that value |
| CollectionExtensions.Concat | MeetingCalendar/Extensions/CollectionExtensions.cs:31-46 | a null first argument throws, then a null second; otherwise the result is the old first followed by the second, in order, with the summed count |
| CollectionExtensions.ConcatInPlace | MeetingCalendar/Extensions/CollectionExtensions.cs:43-45 | the element-by-element `Add` loop produces that concatenation |
| MeetingInfoExtensions.IsOver | MeetingCalendar/Extensions/MeetingInfoExtensions.cs:25-33 | null throws; otherwise a meeting is over exactly when its end is at or before the calibrated clock |
| MeetingInfoExtensions.OverAroundNow | MeetingCalendar/Extensions/MeetingInfoExtensions.cs:32 | a meeting ending in the current minute or earlier is over; one ending after the clock is not |
| Timeline.MarkAll | MeetingCalendar/Calendar.cs:431-443 | merging minutes keeps the keys; a minute ends Scheduled exactly when it was Scheduled or was merged |
| Timeline.MarkAllOrderFree | MeetingCalendar/Calendar.cs:450-467 | the merge result depends only on the set of merged minutes, not on their order or repetition |
| Timeline.FillWindows | MeetingCalendar/Calendar.cs:425-448 | the sequential fill keeps the keys; a minute ends Scheduled exactly when it was Scheduled or lies in some clipped meeting's series |
| Timeline.ParallelFillAgrees | MeetingCalendar/Calendar.cs:450-467 | merging the same minutes in any interleaving gives the sequential fill's result |
| Timeline.FillWindowsOrderFree | MeetingCalendar/Calendar.cs:425-448 | reordering attendees or meetings does not change the filled timeline |
| Timeline.FillWindowsAgree | MeetingCalendar/Calendar.cs:425-448 | two window lists that mark the same minutes fill the timeline alike |
| Timeline.OrderedIsSortedListing | MeetingCalendar/Calendar.cs:417-420 | listing a series timeline by key gives strictly ascending keys one minute apart, holding every dictionary pair |
| SlotScan.FirstIndexOf | MeetingCalendar/Calendar.cs:388 | `FirstOrDefault`: the first entry with the sought value at or after a position, or the end |
| SlotScan.ListingSlotBounds | MeetingCalendar/Calendar.cs:381-409 | each emitted slot is an ordered pair of listed minutes |
| SlotScan.ListingSlotsApart | MeetingCalendar/Calendar.cs:381-409 | a later slot starts more than a minute after an earlier one ends |
| SlotScan.ListingSound | MeetingCalendar/Calendar.cs:381-409 | every listed minute inside an emitted slot is Available |
| SlotScan.ListingComplete | MeetingCalendar/Calendar.cs:381-409 | every Available entry lies in an emitted slot, except a free run made only of the last entry |
| SlotScan.ListingMaximalEnd | MeetingCalendar/Calendar.cs:394-396 | the entry after a slot, if listed, is Scheduled |
| SlotScan.ListingMaximalStart | MeetingCalendar/Calendar.cs:399-401 | the entry before a slot, if listed, is Scheduled |
| SlotScan.ListingNoLoneLastSlot | MeetingCalendar/Calendar.cs:386 | no zero-length slot sits on the last entry |
| SlotScan.SeriesScanShape | MeetingCalendar/Calendar.cs:381-409 | over a series timeline the slots lie in [from, to - 1 minute] and are ascending with a gap between neighbours |
| SlotScan.SeriesScanSound | MeetingCalendar/Calendar.cs:381-409 | every whole minute of an emitted slot is free in the timeline |
| SlotScan.SeriesScanComplete | MeetingCalendar/Calendar.cs:381-409 | every free minute lies in some slot, unless it is the last minute and starts its own run |
| SlotScan.SeriesNoLoneLastSlot | MeetingCalendar/Calendar.cs:386 | a slot is longer than a minute or ends before the last minute |
| SlotScan.SeriesScanMaximalEnd | MeetingCalendar/Calendar.cs:394-396 | the minute after a slot, inside the range, is Scheduled |
| SlotScan.SeriesScanMaximalStart | MeetingCalendar/Calendar.cs:399-401 | the minute before a slot, inside the range, is Scheduled |
| SlotScan.SeriesSlotConstructible | MeetingCalendar/Calendar.cs:394-400 | every emitted slot and its provisional `DistantFuture` slot are accepted by the validating constructor, so the scan never throws |
| Calendars.NewCalendar | MeetingCalendar/Calendar.cs:83-96 | a sentinel start throws, then a sentinel end; otherwise it succeeds exactly when cal(start) < cal(end); the attendees are kept and the window is valid |
| Calendars.NewCalendarAgreesWithSlot | MeetingCalendar/Calendar.cs:83-96 | a calendar accepts exactly the windows the slot constructor accepts with a later end, and stores the same bounds |
| Calendars.ComputationStart | MeetingCalendar/Calendar.cs:37 | the computation start is the later of the window start and the current minute |
| Calendars.MeetingWindows | MeetingCalendar/Calendar.cs:431-436 | one attendee's clipping fails exactly when a live meeting's clipping throws; otherwise it yields exactly the clipped windows of the live overlapping meetings |
| Calendars.LiveWindows | MeetingCalendar/Calendar.cs:429-436 | the same over all attendees |
| Calendars.LiveWindowsSucceed | MeetingCalendar/Calendar.cs:434 | with valid meetings and a window not starting at tick 0, clipping never throws |
| Calendars.LiveWindowShape | MeetingCalendar/Calendar.cs:434 | a clipped window is an ordered pair of whole minutes |
| Calendars.MinuteInSeries | MeetingCalendar/Extensions/TimeSlotExtensions.cs:60-74 | a whole minute is a key of a whole-minute series exactly when it lies in [from, to) |
| Calendars.MarkedIffBusy | MeetingCalendar/Calendar.cs:425-448 | the fill marks a whole minute exactly when it lies in [start, end) of some clipped window |
| Calendars.OpenTimeline | MeetingCalendar/Calendar.cs:270-272 | the query timeline has exactly the query minutes as keys, all Available |
| Calendars.GetAllAvailableTimeSlots | MeetingCalendar/Calendar.cs:259-284 | a window that ended at or before the current minute has no free slots |
| Calendars.QueryRange | MeetingCalendar/Calendar.cs:270-271 | the query minutes are the series from the computation start to the window end |
| Calendars.NothingFreeNoSlots | MeetingCalendar/Calendar.cs:417-420 | when no minute is Available, no slot is emitted |
| Calendars.AvailabilityIsScan | MeetingCalendar/Calendar.cs:411-423 | `GetAvailability` is the scan of the filled timeline, whose keys are the query minutes |
| Calendars.FreeIffNotBusy | MeetingCalendar/Calendar.cs:411-448 | in the filled timeline a whole minute is free exactly when it is in the query range and in no clipped window |
| Calendars.AttendeeSlots | MeetingCalendar/Calendar.cs:274-277 | with attendees, the query returns the scan of the filled timeline over the query range |
| Calendars.AvailableSlotsShape | MeetingCalendar/Calendar.cs:381-409 | the slots succeed, lie between the computation start and the window's last minute, and are ascending with a busy gap between neighbours |
| Calendars.AvailableSlotsFree | MeetingCalendar/Calendar.cs:381-409 | every minute of a slot is in the query range and busy for nobody |
| Calendars.AvailableSlotsCover | MeetingCalendar/Calendar.cs:381-409 | every free query minute is in some slot, except a free last minute that starts its own run |
| Calendars.LoneLastMinuteMissing | MeetingCalendar/Calendar.cs:386 | that lone last minute is in no slot, although it is free |
| Calendars.AvailableSlotsMaximalEnd | MeetingCalendar/Calendar.cs:394-396 | the minute after a slot, inside the window, is busy |
| Calendars.AvailableSlotsMaximalStart | MeetingCalendar/Calendar.cs:399-401 | the minute before a slot, after the computation start, is busy |
| Calendars.ScannedCover | MeetingCalendar/Calendar.cs:381-409 | for any scan whose free minutes are exactly the in-range minutes busy for nobody, such a minute lies in slot `p` unless it is the lone last minute |
| Calendars.ScannedLoneLastMissing | MeetingCalendar/Calendar.cs:386 | in such a scan the lone last minute lies in no slot, whether or not it is free |
| Calendars.ScannedMaximalEnd | MeetingCalendar/Calendar.cs:394-396 | in such a scan the minute after a slot, inside the range, is busy for some attendee |
| Calendars.ScannedMaximalStart | MeetingCalendar/Calendar.cs:399-401 | in such a scan the minute before a slot that starts after the range start is busy for some attendee |
| Calendars.NoAttendeesAtTickZero | MeetingCalendar/Calendar.cs:278-281 | without attendees, a query starting at tick 0 throws from the slot constructor |
| Calendars.NoAttendeesOneSlot | MeetingCalendar/Calendar.cs:278-281 | without attendees, the result is the one slot [computation start, window end - 1 minute] |
| Calendars.FindFirstAvailableSlot | MeetingCalendar/Calendar.cs:200-205 | it fails exactly when the query fails; null exactly when every slot is too short; otherwise the tightest long-enough slot, earliest first; the duration is not validated |
| Calendars.FirstAvailableSlotIsFree | MeetingCalendar/Calendar.cs:200-205 | the slot found is long enough and wholly free |
| Calendars.ValidateSearchRange | MeetingCalendar/Calendar.cs:469-496 | the five checks in the source's order, the last three only when an upper bound is given; it passes exactly when the range is valid |
| Calendars.SearchBoundsInWindow | MeetingCalendar/Calendar.cs:246-251 | the search bounds are whole minutes inside the window |
| Calendars.FindFirstAvailableSlotIn | MeetingCalendar/Calendar.cs:239-253 | validation errors come first; after them the result fails iff the query fails; `None` iff no mapped slot is long enough and inside the bounds, otherwise the tightest such mapped slot, earliest first; the found slot is an available slot mapped to the bounds |
| Calendars.RangedSlotIsFree | MeetingCalendar/Calendar.cs:239-253 | every minute of that slot is within the bounds and wholly free |
| CalendarEdits.Cleared | MeetingCalendar/Calendar.cs:296-297 | the window is kept; the list is emptied exactly when the flag is set |
| CalendarEdits.MoveForward | MeetingCalendar/Calendar.cs:292-303 | the new start is the old end; the new end lies one window duration later, or an overflow throws after the start has moved; attendees are cleared iff the flag is set |
| CalendarEdits.MoveBackward | MeetingCalendar/Calendar.cs:323-334 | the new end is the old start; the new start lies one window duration earlier, or an underflow throws after the end has moved |
| CalendarEdits.MoveForwardWith | MeetingCalendar/Calendar.cs:311-315 | moves forward clearing attendees, then installs the given list unless the move threw; the start becomes the old end and the end moves by the window's minutes, or stays put when the move overflows |
| CalendarEdits.MoveBackwardWith | MeetingCalendar/Calendar.cs:342-346 | moves backward clearing attendees, then installs the given list unless the move threw; the end becomes the old start and the start moves back by the window's minutes, or stays put when the move underflows |
| CalendarEdits.MoveForwardAdjoins | MeetingCalendar/Calendar.cs:292-303 | a successful forward move gives a valid window adjoining the old one, one minute longer |
| CalendarEdits.MoveBackwardAdjoins | MeetingCalendar/Calendar.cs:323-334 | a successful backward move gives a valid window adjoining the old one, one minute longer |
| CalendarEdits.MoveForwardThenBackward | MeetingCalendar/Calendar.cs:292-334 | a forward then a backward move returns to the old end, with a start two minutes earlier |
| CalendarEdits.MoveForwardOverflowEmptiesWindow | MeetingCalendar/Calendar.cs:301-302 | a forward move that overflows leaves start == end, an invalid window whose query throws |
| CalendarEdits.AddAttendees | MeetingCalendar/Calendar.cs:152 | the list is replaced and the window kept |
| CalendarEdits.AppendAttendees | MeetingCalendar/Calendar.cs:158-159 | the list becomes exactly the old one followed by the new one; a null argument appends nothing, and a null old list becomes the argument |
| CalendarEdits.AppendAttendeesAssociative | MeetingCalendar/Calendar.cs:158-159 | two appends are one append of both lists |
| CalendarEdits.AppendNullAttendees | MeetingCalendar/Calendar.cs:158-159 | appending null changes nothing |
| CalendarEdits.RemoveAttendee | MeetingCalendar/Calendar.cs:167 | it reports whether the attendee was present; if not, nothing changes; if so, the first occurrence is removed and the rest keep their order |
| CalendarEdits.RemoveAttendeeCount | MeetingCalendar/Calendar.cs:167 | a removal takes out exactly one copy of the attendee |
| CalendarEdits.RemoveFoundIsFirstMatch | MeetingCalendar/Calendar.cs:174-193 | removing the first attendee matching a predicate deletes exactly that position |
| CalendarEdits.RemoveAttendeeByIdRemovesFirst | MeetingCalendar/Calendar.cs:174-179 | removal by id succeeds exactly when some attendee has the id, and removes the first one |
| CalendarEdits.RemoveAttendeeByContactRemovesFirst | MeetingCalendar/Calendar.cs:187-193 | removal by name and email succeeds exactly when some attendee matches, and removes the first one |
| LegacyCalendar.NewSlot | MeetingCalender/TimeSlot.cs:19-25 | the legacy slot truncates both bounds to the minute and throws only when the truncated start is after the truncated end |
| LegacyCalendar.NewSlotAgreesAwayFromSentinels | MeetingCalender/TimeSlot.cs:19-25 | away from the sentinels it equals the validated constructor; it accepts a `MaxValue` end, which the validated one rejects |
| LegacyCalendar.AvailableDuration | MeetingCalender/TimeSlot.cs:12 | the duration is never negative for an ordered slot, 0 for equal bounds, and exactly the whole minutes between the bounds, with no +1 |
| LegacyCalendar.DurationsDiffer | MeetingCalender/TimeSlot.cs:12 | on a non-empty slot `GetDuration` is the legacy duration plus one; on an empty slot both are 0 |
| LegacyCalendar.NewCalender | MeetingCalender/Calender.cs:27-48 | construction succeeds exactly when cal(start) < cal(end), with no sentinel checks; the slot list starts empty |
| LegacyCalendar.NewCalenderAgrees | MeetingCalender/Calender.cs:27-36 | every window the newer calendar accepts is accepted with the same bounds, and away from the sentinels the converse holds |
| LegacyCalendar.AddAttendees | MeetingCalender/Calender.cs:53-56 | the list is replaced; nothing else changes |
| LegacyCalendar.AppendAttendees | MeetingCalender/Calender.cs:62-65 | a null current list throws, then a null argument; otherwise the lists are concatenated |
| LegacyCalendar.AppendAttendeesTwice | MeetingCalender/Calender.cs:62-65 | two appends are one append of both lists |
| LegacyCalendar.QueryStart | MeetingCalender/Calender.cs:100 | the query starts at the later of the window start and the current minute, although the comparison is with the raw clock |
| LegacyCalendar.OpenTimeline | MeetingCalender/Calender.cs:173-184 | the timeline's keys are the minutes of [from, to), all false |
| LegacyCalendar.Span | MeetingCalender/Calender.cs:114-117 | a meeting's span lies inside both the meeting and the window |
| LegacyCalendar.MeetingSpans | MeetingCalender/Calender.cs:108-117 | the spans are exactly those of the meetings that end after the raw clock |
| LegacyCalendar.AttendeeSpans | MeetingCalender/Calender.cs:106-128 | the same over all attendees |
| LegacyCalendar.QuerySlots | MeetingCalender/Calender.cs:99-139 | the computation fails only for an empty range without attendees |
| LegacyCalendar.GetAllAvailableTimeSlots | MeetingCalender/Calender.cs:91-142 | a past window returns the kept list untouched; a query only appends to the kept list and keeps window and attendees |
| LegacyCalendar.QuerySucceeds | MeetingCalender/Calender.cs:135-139 | a valid calendar's query never throws |
| LegacyCalendar.RepeatedQueriesAccumulate | MeetingCalender/Calender.cs:91-142 | asking twice at the same clock appends the same slots twice |
| LegacyCalendar.SameQueryStart | MeetingCalender/Calender.cs:100 | the legacy query start is the newer computation start |
| LegacyCalendar.CountsIffNotOver | MeetingCalender/Calender.cs:111 | the raw `EndTime > Now` test keeps exactly the meetings that `IsOver` does not reject |
| LegacyCalendar.LegacyMarkIsLive | MeetingCalender/Calender.cs:106-128 | a minute the legacy OR-merge marks is marked by the newer fill |
| LegacyCalendar.LiveMarkIsLegacy | MeetingCalender/Calender.cs:106-128 | a minute the newer fill marks is marked by the legacy OR-merge |
| LegacyCalendar.AttendeeQueriesAgree | MeetingCalender/Calender.cs:104-133 | with attendees, the legacy slots are the newer query's slots |
| LegacyCalendar.EmptyQueriesAgree | MeetingCalender/Calender.cs:135-139 | without attendees, the legacy one slot is the newer query's one slot |
| LegacyCalendar.AgreesWithCalendar | MeetingCalender/Calender.cs:91-171 | for the same window, attendees and clock, the legacy query appends exactly the newer query's result |
| LegacyCalendar.ScanSlotsConstructible | MeetingCalender/Calender.cs:144-171 | the legacy scan's slots and its provisional `MaxValue` slots never make the legacy constructor throw |
| LegacyCalendar.FirstFitIndex | MeetingCalender/Calender.cs:81-82 | there is no index exactly when every slot is too short; otherwise the first fit by (`AvailableDuration`, start) |
| LegacyCalendar.GetFirstAvailableSlot | MeetingCalender/Calender.cs:72-85 | it searches the whole kept list after the query; one slot is returned whatever the duration; otherwise the first long-enough fit, or null |
| LegacyCalendar.NoAttendeesOneSlot | MeetingCalender/Calender.cs:135-139 | without attendees a query appends [query start, window end - 1 minute] |
| LegacyCalendar.OneSlotIgnoresDuration | MeetingCalender/Calender.cs:79-80 | on a fresh calendar without attendees that slot is returned for every requested duration, even one longer than the slot |
| LegacyCalendar.SecondAskChecksDuration | MeetingCalender/Calender.cs:72-85 | asking again sees the slot twice and returns it only when it is long enough |

## Left out

- The wall clock. `DateTime.Now` is the `clock` parameter and is read once per query. The source reads it more than once in one legacy call, and the model does not capture the clock changing between those reads.
- Concurrency. The parallel fill and the `ConcurrentDictionary` updates are not modelled step by step. `Timeline.ParallelFillAgrees` shows that any order of the same updates gives the sequential result. The attendee-count and window-size switch between the two paths is therefore immaterial and not modelled.
- Floating point. `GetDuration`, `CalendarWindowInMinutes` and the earlier `AvailableDuration` are `double`s. On whole-minute bounds they are whole numbers, so they are integers here.
- LegacyCalendar.AvailableDuration: does not model the `(int)` cast overflowing above 2147483647 minutes (about 4083 years), because no window of interest is that long.
- Gregorian calendar arithmetic and `DateTime.Kind`. Time is a tick count, so calibration cannot change a kind.
- Object identity. Attendees are compared by value. `RemoveAttendee(IAttendee)` uses the attendee type's equality, which is not part of this model. The attendee list is a value, not a shared reference, so aliasing of the list is not modelled.
- The `Attendees` read-only copy, the `StartTime`/`EndTime` getters and `Calendar.Deconstruct`. They only read fields.
- Null meeting lists and null attendees inside a list throw a `NullReferenceException` in the source. Here the types rule them out: meetings are a `seq<TimeSlot>` and attendees a `seq<Attendee>`. `MoveForward`/`MoveBackward` with clearing and the `RemoveAttendee` functions also throw on a null attendee list; for those a `requires` excludes the null list.
- The carrier classes (`Attendee`, `MeetingInfo`, `MeetingDetails`) and the interfaces. A meeting is a `TimeSlot`, and an attendee is an id, name, email and meetings. The legacy attendee is a name and meetings.
- `EnumerableExtensions.ForEach`, which is plain iteration.
- The revision mismatch in the extensions. The calendar calls `GetTimeSlotMappedToCalendarTimeFrame`, `TimeSlotMapper` and an `AvailabilityTypes` series. The extensions file modelled has `GetTimeSlotMappedToCalenderTimeFrame` and a `bool` series. The model follows the extensions file and treats the series value as a parameter.
- The duration convention. The extensions file modelled adds 1 to every non-empty duration. Some tests expect plain end − start (an exact duration of 1, window shifts, the window size). The model follows the code, and those test expectations are not proved. The rule lives in `TimeSlots.Duration` alone.
- Calendars.AvailableSlotsCover: deliberately excludes the window's last minute when it is free but starts its own run. The scan drops it, as `Calendars.LoneLastMinuteMissing` proves.
- Calendars.AvailableSlotsShape and the other theorems about the query's slots: they assume a computation start after tick 0. At tick 0, clipping a meeting may throw (`Calendars.LiveWindows`), and the no-attendee path throws (`Calendars.NoAttendeesAtTickZero`).
- LegacyCalendar.AgreesWithCalendar: compares the two versions only for windows that start after tick 0 and meetings of whole minutes. At tick 0 the newer version's sentinel checks throw where the legacy version does not.
