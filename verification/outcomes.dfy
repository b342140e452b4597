/** Result and option carriers for the free-slot finder model.

    The C# code reports bad input by throwing `ArgumentException`,
    `ArgumentNullException` or `ArgumentOutOfRangeException` and represents
    "no value" by `null`. Here every throw becomes an `Err` carrying a `Fault`
    that names the failing check, and every nullable value an `Option`. */
module Outcomes {

  datatype Option<+T> = None | Some(value: T)

  /** One constructor per validation the source performs. The exception type
      is implied: `NullArgument` is an `ArgumentNullException`, `OutOfRange`
      an `ArgumentOutOfRangeException`, `EmptySequence` the
      `InvalidOperationException` of `First()` on an empty sequence, all
      others `ArgumentException`. */
  datatype Fault =
    | InvalidCalendarStart
    | InvalidCalendarEnd
    | CalendarEndNotAfterStart
    | InvalidSlotStart
    | InvalidSlotEnd
    | SlotEndBeforeStart
    | InvalidSearchStart
    | NonPositiveDuration
    | SearchUpperNotAfterLower
    | DurationLongerThanSearchRange
    | SearchUpperInPast
    | NullArgument(parameter: string)
    | OutOfRange
    | EmptySequence

  datatype Result<+T> = Ok(value: T) | Err(fault: Fault)
}
