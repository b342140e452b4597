/** MeetingCalendar/Extensions/CollectionExtensions.cs: the in-place
    `Concat`, which appends every element of `second` to `first` and hands
    `first` back. Collections are sequences; null is `None`. */
module CollectionExtensions {
  import opened Outcomes

  /** `Concat`: both arguments are checked for null (first, then second);
      the result holds the old contents of `first` followed by `second`, in
      order. `second` itself is only read. */
  function Concat<T>(first: Option<seq<T>>, second: Option<seq<T>>): (r: Result<seq<T>>)
    ensures first.None? ==> r == Err(NullArgument("first"))
    ensures first.Some? && second.None? ==> r == Err(NullArgument("second"))
    ensures r.Ok? <==> first.Some? && second.Some?
    ensures r.Ok? ==> |r.value| == |first.value| + |second.value|
    ensures r.Ok? ==> forall i :: 0 <= i < |first.value| ==> r.value[i] == first.value[i]
    ensures r.Ok? ==> forall i :: 0 <= i < |second.value| ==> r.value[|first.value| + i] == second.value[i]
  {
    match first
    case None => Err(NullArgument("first"))
    case Some(a) =>
      match second
      case None => Err(NullArgument("second"))
      case Some(b) => Ok(a + b)
  }

  /** The source's loop: add the elements of `second` one at a time to the
      end of `first`. */
  method ConcatInPlace<T>(first: seq<T>, second: seq<T>) returns (result: seq<T>)
    ensures Concat(Some(first), Some(second)) == Ok(result)
  {
    result := first;
    var i := 0;
    while i < |second|
      invariant 0 <= i <= |second|
      invariant result == first + second[..i]
    {
      result := result + [second[i]];
      assert second[..i + 1] == second[..i] + [second[i]];
      i := i + 1;
    }
    assert second[..i] == second;
  }
}
