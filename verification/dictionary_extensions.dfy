/** MeetingCalendar/Extensions/DictionaryExtensions.cs. Dictionaries are
    Dafny maps; a null dictionary is `None`. `FillWith` overwrites every
    value in place and returns the same dictionary, which on values is a
    map with the same keys. */
module DictionaryExtensions {
  import opened Outcomes
  import opened TimeSlots
  import TimeSlotExtensions

  /** `FillWith`: every value becomes `value`; the key set is untouched. */
  function FillWith<K, V>(timeSeries: Option<map<K, V>>, value: V): (r: Result<map<K, V>>)
    ensures timeSeries.None? <==> r == Err(NullArgument("timeSeries"))
    ensures timeSeries.Some? ==> r.Ok? && r.value.Keys == timeSeries.value.Keys
    ensures r.Ok? ==> forall k :: k in r.value ==> r.value[k] == value
  {
    match timeSeries
    case None => Err(NullArgument("timeSeries"))
    case Some(m) => Ok(map k | k in m :: value)
  }

  /** `ToConcurrentDictionary`, modelled as a plain copy: the same
      key/value pairs. */
  function ToConcurrentDictionary<K, V>(timeSeries: Option<map<K, V>>): (r: Result<map<K, V>>)
    ensures timeSeries.None? <==> r == Err(NullArgument("timeSeries"))
    ensures r.Ok? ==> r.value.Keys == timeSeries.value.Keys
    ensures r.Ok? ==> forall k :: k in r.value ==> r.value[k] == timeSeries.value[k]
  {
    match timeSeries
    case None => Err(NullArgument("timeSeries"))
    case Some(m) => Ok(map k | k in m :: m[k])
  }

  /** Filling a minute series with a value is the same as building the
      series with that value from the start, and filling twice keeps only
      the last value. */
  lemma FillWithRebuildsSeries<V>(slot: Option<TimeSlot>, first: V, second: V, seriesStartTime: int)
    ensures FillWith(Some(TimeSlotExtensions.TimeSeriesByMinutes(slot, first, seriesStartTime)), second)
              == Ok(TimeSlotExtensions.TimeSeriesByMinutes(slot, second, seriesStartTime))
  {
  }
}
