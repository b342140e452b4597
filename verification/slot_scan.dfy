/** `CalculateAvailableSlots` of MeetingCalendar/Calendar.cs: the recursive
    scan that turns the ordered, filled timeline into free slots.

    The source threads two optional parameters through the recursion: the
    provisional slot opened at the start of a free run, and the value being
    searched for next. Only two combinations ever occur, and each is one of
    two mutually recursive functions: `ScanFree` looks for the next
    Available minute (no open slot), `ScanBusy` for the next Scheduled minute
    while a run that began at `runStart` is open.

    Each recursive call receives the entries whose key is greater than the
    found one. The entries are ordered by key, so that remainder is exactly
    the entries after the found position; the model keeps the whole listing
    and passes the position `from` where the remainder begins. */
module SlotScan {
  import opened DateTimes
  import opened Outcomes
  import opened TimeSlots
  import opened TimeSlotExtensions
  import opened Timeline

  /** `DateTimeConstants.DistantFutureDateTime`: the provisional end given
      to a run when it is opened. */
  const DistantFuture: int := MaxTicks - TicksPerMinute

  predicate Free(e: Entry) {
    e.value == Available
  }

  /** `FirstOrDefault(item => item.Value == value)` on the remainder that
      begins at `from`, as a position: the first entry there holding
      `value`, or `|es|` when there is none. */
  function FirstIndexOf(es: seq<Entry>, from: nat, value: Availability): (i: nat)
    requires from <= |es|
    ensures from <= i <= |es|
    ensures i < |es| ==> es[i].value == value
    ensures forall j :: from <= j < i ==> es[j].value != value
    decreases |es| - from
  {
    if from == |es| then from
    else if es[from].value == value then from
    else FirstIndexOf(es, from + 1, value)
  }

  /** The scan of the remainder at `from` while no run is open: an empty
      remainder, or no Available entry in it, ends the scan; otherwise a run
      opens on the first Available entry and the scan continues after it. A
      found entry whose key is the default instant (tick 0) counts as not
      found, as `FirstOrDefault` cannot tell the two apart. */
  function ScanFree(es: seq<Entry>, from: nat): seq<TimeSlot>
    requires from <= |es|
    decreases |es| - from, 1
  {
    if from == |es| then []
    else
      var i := FirstIndexOf(es, from, Available);
      if i < |es| && es[i].key != MinTicks then ScanBusy(es, i + 1, es[i].key) else []
  }

  /** The scan of the remainder at `from` while the run that began at
      `runStart` is open: an empty remainder ends the scan; otherwise the run
      closes one minute before the first Scheduled entry and the scan
      continues after it, or, with no Scheduled entry left, the run closes
      on the last entry. */
  function ScanBusy(es: seq<Entry>, from: nat, runStart: int): seq<TimeSlot>
    requires from <= |es|
    decreases |es| - from, 0
  {
    if from == |es| then []
    else
      var i := FirstIndexOf(es, from, Scheduled);
      if i < |es| && es[i].key != MinTicks then
        [TimeSlot(runStart, es[i].key - TicksPerMinute)] + ScanFree(es, i + 1)
      else
        [TimeSlot(runStart, es[|es| - 1].key)]
  }

  /** The slots of a whole listing. */
  function AvailableSlots(es: seq<Entry>): seq<TimeSlot> {
    ScanFree(es, 0)
  }

  /** The key at position `i` is one minute after the key before it. */
  predicate Follows(es: seq<Entry>, i: int)
    requires 0 < i < |es|
  {
    es[i].key == es[i - 1].key + TicksPerMinute
  }

  /** The key at position `i` is not the default instant. */
  predicate Keyed(es: seq<Entry>, i: int)
    requires 0 <= i < |es|
  {
    es[i].key != MinTicks
  }

  /** The listings the scan is run on: no key is the default instant, and
      each key is one minute after the one before it. */
  ghost predicate Chained(es: seq<Entry>) {
    && (forall i :: 0 <= i < |es| ==> Keyed(es, i))
    && (forall i :: 0 < i < |es| ==> Follows(es, i))
  }

  /** The remainder at `from` of a chained listing, with an open run that
      began on the Available entry just before it. */
  ghost predicate RunOpen(es: seq<Entry>, from: nat) {
    Chained(es) && 0 < from < |es| && Free(es[from - 1])
  }

  /** One step of the scan with no run open. */
  lemma ScanFreeStep(es: seq<Entry>, from: nat)
    requires Chained(es) && from < |es|
    ensures var i := FirstIndexOf(es, from, Available);
            ScanFree(es, from) == if i < |es| then ScanBusy(es, i + 1, es[i].key) else []
  {
    var i := FirstIndexOf(es, from, Available);
    if i < |es| {
      assert Keyed(es, i);
    }
  }

  /** One step of the scan with a run open, when a Scheduled entry follows:
      the run closes on the entry before it. */
  lemma ScanBusyFound(es: seq<Entry>, from: nat)
    requires RunOpen(es, from) && FirstIndexOf(es, from, Scheduled) < |es|
    ensures var i := FirstIndexOf(es, from, Scheduled);
            ScanBusy(es, from, es[from - 1].key) == [TimeSlot(es[from - 1].key, es[i - 1].key)] + ScanFree(es, i + 1)
  {
    var i := FirstIndexOf(es, from, Scheduled);
    assert Keyed(es, i) && Follows(es, i);
  }

  /** The last step of the scan: a run is open and no Scheduled entry
      follows, so it closes on the last entry. */
  lemma ScanBusyLast(es: seq<Entry>, from: nat)
    requires RunOpen(es, from) && FirstIndexOf(es, from, Scheduled) == |es|
    ensures ScanBusy(es, from, es[from - 1].key) == [TimeSlot(es[from - 1].key, es[|es| - 1].key)]
  {
  }

  /** Entries `a..b` are a maximal run of Available entries among those
      from `lo` on: every one is Available, the entry after them is not (or
      there is none), and neither is the entry before them unless the run
      begins at `lo`. */
  ghost predicate MaximalRun(es: seq<Entry>, lo: int, a: int, b: int) {
    && 0 <= lo <= a <= b < |es|
    && (forall k :: a <= k <= b ==> Free(es[k]))
    && (b + 1 < |es| ==> !Free(es[b + 1]))
    && (lo < a ==> !Free(es[a - 1]))
  }

  /** A maximal run among the entries from `lo'` on is one among those from
      an earlier `lo` when the entry before `lo'` is busy. */
  lemma WidenRun(es: seq<Entry>, lo: int, lo': int, a: int, b: int)
    requires MaximalRun(es, lo', a, b) && 0 <= lo <= lo'
    requires lo < lo' ==> !Free(es[lo' - 1])
    ensures MaximalRun(es, lo, a, b)
  {
  }

  /** Slot `p` of the scan with no run open is a maximal run `a..b` of the
      remainder, from the key of `a` to the key of `b`. */
  lemma {:induction false} SpanFree(es: seq<Entry>, from: nat, p: int) returns (a: nat, b: nat)
    requires Chained(es) && from < |es|
    requires 0 <= p < |ScanFree(es, from)|
    ensures MaximalRun(es, from, a, b)
    ensures ScanFree(es, from)[p] == TimeSlot(es[a].key, es[b].key)
    ensures a < b || b + 1 < |es|
    decreases |es| - from, 1
  {
    var i := FirstIndexOf(es, from, Available);
    ScanFreeStep(es, from);
    assert i + 1 < |es|;
    a, b := SpanBusy(es, i + 1, p);
    WidenRun(es, from, i, a, b);
  }

  /** The open run closes on the entry before the next Scheduled one, and
      is maximal. */
  lemma FirstRunFound(es: seq<Entry>, from: nat) returns (i: nat)
    requires RunOpen(es, from) && FirstIndexOf(es, from, Scheduled) < |es|
    ensures i == FirstIndexOf(es, from, Scheduled) && from <= i < |es|
    ensures MaximalRun(es, from - 1, from - 1, i - 1)
    ensures ScanBusy(es, from, es[from - 1].key)[0] == TimeSlot(es[from - 1].key, es[i - 1].key)
  {
    i := FirstIndexOf(es, from, Scheduled);
    ScanBusyFound(es, from);
  }

  /** After the open run closes, slot `p` is slot `p - 1` of the scan that
      continues after the Scheduled entry. */
  lemma RestAfterRun(es: seq<Entry>, from: nat, p: int) returns (i: nat)
    requires RunOpen(es, from) && FirstIndexOf(es, from, Scheduled) < |es|
    requires 0 < p < |ScanBusy(es, from, es[from - 1].key)|
    ensures i == FirstIndexOf(es, from, Scheduled) && i + 1 < |es|
    ensures 0 <= p - 1 < |ScanFree(es, i + 1)|
    ensures ScanBusy(es, from, es[from - 1].key)[p] == ScanFree(es, i + 1)[p - 1]
  {
    i := FirstIndexOf(es, from, Scheduled);
    ScanBusyFound(es, from);
  }

  /** With no Scheduled entry left, the open run is the last slot and runs
      to the last entry. */
  lemma FirstRunLast(es: seq<Entry>, from: nat)
    requires RunOpen(es, from) && FirstIndexOf(es, from, Scheduled) == |es|
    ensures MaximalRun(es, from - 1, from - 1, |es| - 1)
    ensures ScanBusy(es, from, es[from - 1].key) == [TimeSlot(es[from - 1].key, es[|es| - 1].key)]
  {
    ScanBusyLast(es, from);
  }

  /** Slot `p` of the scan with a run open is a maximal run `a..b` that may
      include the entry the run opened on; the first slot is that run. */
  lemma {:induction false} SpanBusy(es: seq<Entry>, from: nat, p: int) returns (a: nat, b: nat)
    requires RunOpen(es, from)
    requires 0 <= p < |ScanBusy(es, from, es[from - 1].key)|
    ensures MaximalRun(es, from - 1, a, b)
    ensures ScanBusy(es, from, es[from - 1].key)[p] == TimeSlot(es[a].key, es[b].key)
    ensures p == 0 ==> a == from - 1
    ensures a < b || b + 1 < |es|
    decreases |es| - from, 1
  {
    if FirstIndexOf(es, from, Scheduled) == |es| {
      FirstRunLast(es, from);
      a, b := from - 1, |es| - 1;
    } else if p == 0 {
      var i := FirstRunFound(es, from);
      a, b := from - 1, i - 1;
    } else {
      a, b := SpanAfterRun(es, from, p);
    }
  }

  /** A slot after the one the open run closes is a maximal run of the
      entries after the Scheduled entry that closed it. */
  lemma {:induction false} SpanAfterRun(es: seq<Entry>, from: nat, p: int) returns (a: nat, b: nat)
    requires RunOpen(es, from) && FirstIndexOf(es, from, Scheduled) < |es|
    requires 0 < p < |ScanBusy(es, from, es[from - 1].key)|
    ensures MaximalRun(es, from - 1, a, b)
    ensures ScanBusy(es, from, es[from - 1].key)[p] == TimeSlot(es[a].key, es[b].key)
    ensures a < b || b + 1 < |es|
    decreases |es| - from, 0
  {
    var i := RestAfterRun(es, from, p);
    a, b := SpanFree(es, i + 1, p - 1);
    WidenRun(es, from - 1, i + 1, a, b);
  }

  /** Later slots start after earlier ones end with at least one entry
      between them: `b` ends slot `p` and `a` starts slot `q`. */
  lemma {:induction false} ApartFree(es: seq<Entry>, from: nat, p: int, q: int) returns (b: nat, a: nat)
    requires Chained(es) && from < |es|
    requires 0 <= p < q < |ScanFree(es, from)|
    ensures b + 1 < a < |es|
    ensures ScanFree(es, from)[p].end == es[b].key && ScanFree(es, from)[q].start == es[a].key
    decreases |es| - from, 1
  {
    var i := FirstIndexOf(es, from, Available);
    ScanFreeStep(es, from);
    assert i + 1 < |es|;
    b, a := ApartBusy(es, i + 1, p, q);
  }

  /** The same with a run open. */
  lemma {:induction false} ApartBusy(es: seq<Entry>, from: nat, p: int, q: int) returns (b: nat, a: nat)
    requires RunOpen(es, from)
    requires 0 <= p < q < |ScanBusy(es, from, es[from - 1].key)|
    ensures b + 1 < a < |es|
    ensures ScanBusy(es, from, es[from - 1].key)[p].end == es[b].key
    ensures ScanBusy(es, from, es[from - 1].key)[q].start == es[a].key
    decreases |es| - from, 0
  {
    var i := FirstIndexOf(es, from, Scheduled);
    if i == |es| {
      ScanBusyLast(es, from);
    }
    ScanBusyFound(es, from);
    assert i + 1 < |es|;
    assert ScanBusy(es, from, es[from - 1].key)[q] == ScanFree(es, i + 1)[q - 1];
    if p == 0 {
      var b';
      a, b' := SpanFree(es, i + 1, q - 1);
      b := i - 1;
    } else {
      assert ScanBusy(es, from, es[from - 1].key)[p] == ScanFree(es, i + 1)[p - 1];
      b, a := ApartFree(es, i + 1, p - 1, q - 1);
    }
  }

  /** The one Available entry the scan cannot report: the last entry, when
      a run begins on it (it is the first entry from `lo` on, or follows a
      busy one). The scan opens the run there and then stops on the empty
      remainder. */
  ghost predicate LoneLast(es: seq<Entry>, lo: int, j: int)
    requires 0 <= lo <= j < |es|
  {
    j == |es| - 1 && (j == lo || !Free(es[j - 1]))
  }

  /** Completeness with no run open: every Available entry of the remainder
      except a lone last one lies in slot `p`, the run `a..b`. */
  lemma {:induction false} CoveredFree(es: seq<Entry>, from: nat, j: int) returns (p: nat, a: nat, b: nat)
    requires Chained(es) && from <= j < |es| && Free(es[j]) && !LoneLast(es, from, j)
    ensures p < |ScanFree(es, from)| && a <= j <= b < |es|
    ensures ScanFree(es, from)[p] == TimeSlot(es[a].key, es[b].key)
    decreases |es| - from, 1
  {
    var i := FirstIndexOf(es, from, Available);
    ScanFreeStep(es, from);
    assert i + 1 < |es|;
    if j == i {
      p := 0;
      a, b := SpanBusy(es, i + 1, 0);
    } else {
      p, a, b := CoveredBusy(es, i + 1, j);
    }
  }

  /** The same with a run open. */
  lemma {:induction false} CoveredBusy(es: seq<Entry>, from: nat, j: int) returns (p: nat, a: nat, b: nat)
    requires RunOpen(es, from) && from <= j < |es| && Free(es[j]) && !LoneLast(es, from - 1, j)
    ensures p < |ScanBusy(es, from, es[from - 1].key)| && a <= j <= b < |es|
    ensures ScanBusy(es, from, es[from - 1].key)[p] == TimeSlot(es[a].key, es[b].key)
    decreases |es| - from, 0
  {
    var i := FirstIndexOf(es, from, Scheduled);
    if i == |es| {
      ScanBusyLast(es, from);
      p, a, b := 0, from - 1, |es| - 1;
    } else if j < i {
      ScanBusyFound(es, from);
      p, a, b := 0, from - 1, i - 1;
    } else {
      ScanBusyFound(es, from);
      var p';
      p', a, b := CoveredFree(es, i + 1, j);
      assert ScanBusy(es, from, es[from - 1].key)[p' + 1] == ScanFree(es, i + 1)[p'];
      p := p' + 1;
    }
  }
  /** The key at position `i` is `i` minutes after `base`. */
  predicate StepAt(es: seq<Entry>, base: int, i: int)
    requires 0 <= i < |es|
  {
    es[i].key == base + i * TicksPerMinute
  }

  /** The listing's keys are the consecutive whole minutes from `base`. */
  ghost predicate Stepped(es: seq<Entry>, base: int) {
    OnMinute(base) && forall i :: 0 <= i < |es| ==> StepAt(es, base, i)
  }

  /** In such a listing keys are ordered as their positions are, distinct
      positions are at least a minute apart, and every key is a whole
      minute. */
  lemma StepOrder(es: seq<Entry>, base: int, i: int, j: int)
    requires Stepped(es, base) && 0 <= i < |es| && 0 <= j < |es|
    ensures i <= j <==> es[i].key <= es[j].key
    ensures i < j ==> es[i].key + TicksPerMinute <= es[j].key
    ensures OnMinute(es[i].key)
  {
    assert StepAt(es, base, i) && StepAt(es, base, j);
    MinuteCounts(i, j);
    MinuteOffset(base, i);
  }

  /** In such a listing only the first key is `base`, and the entry before
      position `j` holds the minute before its key. */
  lemma StepNeighbours(es: seq<Entry>, base: int, j: int)
    requires Stepped(es, base) && 0 <= j < |es|
    ensures j == 0 <==> es[j].key == base
    ensures 0 < j ==> es[j - 1].key == es[j].key - TicksPerMinute
  {
    assert StepAt(es, base, j);
    if 0 < j {
      assert StepAt(es, base, j - 1);
    }
  }

  /** A non-empty chained listing whose keys are the consecutive whole
      minutes from `base`: the ordered timeline of one query. */
  ghost predicate Listing(es: seq<Entry>, base: int) {
    |es| > 0 && Chained(es) && Stepped(es, base)
  }

  /** Every slot is an ordered pair of whole minutes between the first and
      the last key. */
  lemma ListingSlotBounds(es: seq<Entry>, base: int, p: int)
    requires Listing(es, base) && 0 <= p < |AvailableSlots(es)|
    ensures var s := AvailableSlots(es)[p];
            base <= s.start <= s.end <= es[|es| - 1].key && OnMinute(s.start) && OnMinute(s.end)
  {
    var a, b := SpanFree(es, 0, p);
    assert StepAt(es, base, 0);
    StepOrder(es, base, 0, a);
    StepOrder(es, base, a, b);
    StepOrder(es, base, b, |es| - 1);
  }

  /** A later slot starts more than a minute after an earlier one ends. */
  lemma ListingSlotsApart(es: seq<Entry>, base: int, p: int, q: int)
    requires Listing(es, base) && 0 <= p < q < |AvailableSlots(es)|
    ensures AvailableSlots(es)[p].end + TicksPerMinute < AvailableSlots(es)[q].start
  {
    var b, a := ApartFree(es, 0, p, q);
    StepOrder(es, base, b, b + 1);
    StepOrder(es, base, b + 1, a);
  }

  /** Soundness: an entry whose key lies inside a slot is Available. */
  lemma ListingSound(es: seq<Entry>, base: int, p: int, j: int)
    requires Listing(es, base) && 0 <= p < |AvailableSlots(es)| && 0 <= j < |es|
    requires AvailableSlots(es)[p].start <= es[j].key <= AvailableSlots(es)[p].end
    ensures Free(es[j])
  {
    var a, b := SpanFree(es, 0, p);
    StepOrder(es, base, a, j);
    StepOrder(es, base, j, b);
  }

  /** Completeness: an Available entry lies inside some slot `p`, unless it
      is a lone last one. */
  lemma ListingComplete(es: seq<Entry>, base: int, j: int) returns (p: nat)
    requires Listing(es, base) && 0 <= j < |es| && Free(es[j]) && !LoneLast(es, 0, j)
    ensures p < |AvailableSlots(es)|
    ensures AvailableSlots(es)[p].start <= es[j].key <= AvailableSlots(es)[p].end
  {
    var a, b;
    p, a, b := CoveredFree(es, 0, j);
    StepOrder(es, base, a, j);
    StepOrder(es, base, j, b);
  }

  /** Maximality at the end: the entry one minute after a slot, when there
      is one, is busy. */
  lemma ListingMaximalEnd(es: seq<Entry>, base: int, p: int) returns (j: nat)
    requires Listing(es, base) && 0 <= p < |AvailableSlots(es)|
    requires AvailableSlots(es)[p].end < es[|es| - 1].key
    ensures j < |es| && es[j].key == AvailableSlots(es)[p].end + TicksPerMinute && !Free(es[j])
  {
    var a, b := SpanFree(es, 0, p);
    StepOrder(es, base, |es| - 1, b);
    j := b + 1;
    assert Follows(es, j);
  }

  /** Maximality at the start: the entry one minute before a slot, when
      there is one, is busy. */
  lemma ListingMaximalStart(es: seq<Entry>, base: int, p: int) returns (j: nat)
    requires Listing(es, base) && 0 <= p < |AvailableSlots(es)|
    requires base < AvailableSlots(es)[p].start
    ensures j < |es| && es[j].key == AvailableSlots(es)[p].start - TicksPerMinute && !Free(es[j])
  {
    var a, b := SpanFree(es, 0, p);
    assert StepAt(es, base, 0);
    j := a - 1;
    assert Follows(es, a);
  }

  /** No slot is the last entry on its own: a free run made of the last
      entry alone opens and is never closed. */
  lemma ListingNoLoneLastSlot(es: seq<Entry>, base: int, p: int)
    requires Listing(es, base) && 0 <= p < |AvailableSlots(es)|
    ensures AvailableSlots(es)[p].start < AvailableSlots(es)[p].end || AvailableSlots(es)[p].end < es[|es| - 1].key
  {
    var a, b := SpanFree(es, 0, p);
    if a < b {
      StepOrder(es, base, a, b);
    } else {
      StepOrder(es, base, b, |es| - 1);
    }
  }

  /** The timeline holds minute `k` and it is Available. */
  ghost predicate FreeAt(timeline: Minutes, k: int) {
    k in timeline && timeline[k] == Available
  }

  /** A timeline keyed by exactly the whole minutes of [from, to). */
  ghost predicate SeriesTimeline(timeline: Minutes, from: int, to: int) {
    && (forall k :: k in timeline <==> k in SeriesKeys(from, to))
    && OnMinute(from) && OnMinute(to) && MinTicks < from < to
  }

  /** Such a timeline, listed in key order, is what the scan expects: the
      keys are the minutes from `from` up to the minute before `to`, and an
      entry is free exactly when its minute is. */
  lemma {:induction false} SeriesListing(timeline: Minutes, from: int, to: int)
    requires SeriesTimeline(timeline, from, to)
    ensures var es := Ordered(timeline, SeriesKeys(from, to));
            && Listing(es, from)
            && es[|es| - 1].key == to - TicksPerMinute
            && (forall j :: 0 <= j < |es| ==> (Free(es[j]) <==> FreeAt(timeline, es[j].key)))
  {
    var es := Ordered(timeline, SeriesKeys(from, to));
    OrderedIsSortedListing(timeline, from, to);
    forall i | 0 <= i < |es|
      ensures StepAt(es, from, i) && Keyed(es, i)
    {
      MinuteCounts(0, i);
    }
    forall i | 0 < i < |es|
      ensures Follows(es, i)
    {
      MinuteCounts(i - 1, i);
    }
    SeriesKeysCount(from, to);
    MinuteCounts(|es| - 1, |es|);
  }

  /** A whole minute of [from, to) is a key of the series, at the position
      its distance from `from` says. */
  lemma {:induction false} SeriesIndex(from: int, to: int, k: int) returns (i: nat)
    requires OnMinute(from) && OnMinute(k) && from <= k < to
    ensures i < |SeriesKeys(from, to)| && SeriesKeys(from, to)[i] == k
  {
    SeriesKeysMembership(from, to, k);
    assert (k - from) % TicksPerMinute == 0 by {
      assert k == TicksPerMinute * (k / TicksPerMinute);
      assert from == TicksPerMinute * (from / TicksPerMinute);
      assert k - from == TicksPerMinute * (k / TicksPerMinute - from / TicksPerMinute);
    }
    var ks := SeriesKeys(from, to);
    i :| 0 <= i < |ks| && ks[i] == k;
  }

  /** A whole minute of [from, to) is the key of some entry of the
      listing. */
  lemma {:induction false} ListingIndex(timeline: Minutes, from: int, to: int, k: int) returns (j: nat)
    requires SeriesTimeline(timeline, from, to)
    requires OnMinute(k) && from <= k < to
    ensures j < |Ordered(timeline, SeriesKeys(from, to))|
    ensures Ordered(timeline, SeriesKeys(from, to))[j].key == k
  {
    j := SeriesIndex(from, to, k);
  }

  /** Each slot of the scan over such a timeline is an ordered pair of whole
      minutes in [from, to - 1 minute]. */
  lemma {:induction false} SeriesSlotBounds(timeline: Minutes, from: int, to: int, p: int)
    requires SeriesTimeline(timeline, from, to)
    requires 0 <= p < |AvailableSlots(Ordered(timeline, SeriesKeys(from, to)))|
    ensures var s := AvailableSlots(Ordered(timeline, SeriesKeys(from, to)))[p];
            from <= s.start <= s.end <= to - TicksPerMinute && OnMinute(s.start) && OnMinute(s.end)
  {
    SeriesListing(timeline, from, to);
    ListingSlotBounds(Ordered(timeline, SeriesKeys(from, to)), from, p);
  }

  /** A later slot starts more than a minute after an earlier one ends. */
  lemma {:induction false} SeriesSlotsApart(timeline: Minutes, from: int, to: int, p: int, q: int)
    requires SeriesTimeline(timeline, from, to)
    requires 0 <= p < q < |AvailableSlots(Ordered(timeline, SeriesKeys(from, to)))|
    ensures var r := AvailableSlots(Ordered(timeline, SeriesKeys(from, to)));
            r[p].end + TicksPerMinute < r[q].start
  {
    SeriesListing(timeline, from, to);
    ListingSlotsApart(Ordered(timeline, SeriesKeys(from, to)), from, p, q);
  }

  /** The scan over such a timeline: all slots lie in [from, to - 1 minute]
      and are separated by at least one minute. */
  lemma {:induction false} SeriesScanShape(timeline: Minutes, from: int, to: int)
    requires SeriesTimeline(timeline, from, to)
    ensures var r := AvailableSlots(Ordered(timeline, SeriesKeys(from, to)));
            Within(r, from, to - TicksPerMinute) && Separated(r)
  {
    var r := AvailableSlots(Ordered(timeline, SeriesKeys(from, to)));
    forall p | 0 <= p < |r|
      ensures from <= r[p].start <= r[p].end <= to - TicksPerMinute && OnMinute(r[p].start) && OnMinute(r[p].end)
    {
      SeriesSlotBounds(timeline, from, to, p);
    }
    forall p, q | 0 <= p < q < |r|
      ensures r[p].end + TicksPerMinute < r[q].start
    {
      SeriesSlotsApart(timeline, from, to, p, q);
    }
  }

  /** Every slot is an ordered pair of whole minutes inside [lo, hi]. */
  ghost predicate Within(r: seq<TimeSlot>, lo: int, hi: int) {
    forall p :: 0 <= p < |r| ==>
      lo <= r[p].start <= r[p].end <= hi && OnMinute(r[p].start) && OnMinute(r[p].end)
  }

  /** Later slots start more than a minute after earlier ones end. */
  ghost predicate Separated(r: seq<TimeSlot>) {
    forall p, q :: 0 <= p < q < |r| ==> r[p].end + TicksPerMinute < r[q].start
  }

  /** Soundness over minutes: every whole minute inside a slot is free. */
  lemma {:induction false} SeriesScanSound(timeline: Minutes, from: int, to: int, p: int, k: int)
    requires SeriesTimeline(timeline, from, to)
    requires 0 <= p < |AvailableSlots(Ordered(timeline, SeriesKeys(from, to)))|
    requires var s := AvailableSlots(Ordered(timeline, SeriesKeys(from, to)))[p];
             s.start <= k <= s.end && OnMinute(k)
    ensures FreeAt(timeline, k)
  {
    var es := Ordered(timeline, SeriesKeys(from, to));
    SeriesListing(timeline, from, to);
    ListingSlotBounds(es, from, p);
    var j := ListingIndex(timeline, from, to, k);
    ListingSound(es, from, p, j);
  }


  /** The free minute the scan drops: the series' last minute when a run
      starts there. */
  ghost predicate DroppedLastMinute(timeline: Minutes, from: int, to: int, k: int) {
    k == to - TicksPerMinute && (k == from || !FreeAt(timeline, k - TicksPerMinute))
  }

  /** Completeness over minutes: every free minute lies in a slot, except a
      dropped last minute; `p` is that slot. */
  lemma {:induction false} SeriesScanComplete(timeline: Minutes, from: int, to: int, k: int) returns (p: nat)
    requires SeriesTimeline(timeline, from, to)
    requires from <= k < to && OnMinute(k) && FreeAt(timeline, k)
    requires !DroppedLastMinute(timeline, from, to, k)
    ensures p < |AvailableSlots(Ordered(timeline, SeriesKeys(from, to)))|
    ensures var s := AvailableSlots(Ordered(timeline, SeriesKeys(from, to)))[p];
            s.start <= k <= s.end
  {
    var es := Ordered(timeline, SeriesKeys(from, to));
    SeriesListing(timeline, from, to);
    var j := ListingIndex(timeline, from, to, k);
    StepNeighbours(es, from, j);
    assert !LoneLast(es, 0, j);
    p := ListingComplete(es, from, j);
  }


  /** The counterpart of the exception in completeness: a slot never
      consists of the series' last minute alone, so a dropped last minute
      is in no slot. */
  lemma {:induction false} SeriesNoLoneLastSlot(timeline: Minutes, from: int, to: int, p: int)
    requires SeriesTimeline(timeline, from, to)
    requires 0 <= p < |AvailableSlots(Ordered(timeline, SeriesKeys(from, to)))|
    ensures var s := AvailableSlots(Ordered(timeline, SeriesKeys(from, to)))[p];
            s.start < s.end || s.end < to - TicksPerMinute
  {
    var es := Ordered(timeline, SeriesKeys(from, to));
    SeriesListing(timeline, from, to);
    ListingNoLoneLastSlot(es, from, p);
  }

  /** Maximality over minutes: the minute after a slot, when it lies in the
      series, is not free. */
  lemma {:induction false} SeriesScanMaximalEnd(timeline: Minutes, from: int, to: int, p: int)
    requires SeriesTimeline(timeline, from, to)
    requires 0 <= p < |AvailableSlots(Ordered(timeline, SeriesKeys(from, to)))|
    requires AvailableSlots(Ordered(timeline, SeriesKeys(from, to)))[p].end + TicksPerMinute < to
    ensures !FreeAt(timeline, AvailableSlots(Ordered(timeline, SeriesKeys(from, to)))[p].end + TicksPerMinute)
  {
    var es := Ordered(timeline, SeriesKeys(from, to));
    SeriesListing(timeline, from, to);
    var j := ListingMaximalEnd(es, from, p);
  }


  /** Nor is the minute before a slot, when it lies in the series. */
  lemma {:induction false} SeriesScanMaximalStart(timeline: Minutes, from: int, to: int, p: int)
    requires SeriesTimeline(timeline, from, to)
    requires 0 <= p < |AvailableSlots(Ordered(timeline, SeriesKeys(from, to)))|
    requires from < AvailableSlots(Ordered(timeline, SeriesKeys(from, to)))[p].start
    ensures !FreeAt(timeline, AvailableSlots(Ordered(timeline, SeriesKeys(from, to)))[p].start - TicksPerMinute)
  {
    var es := Ordered(timeline, SeriesKeys(from, to));
    SeriesListing(timeline, from, to);
    var j := ListingMaximalStart(es, from, p);
  }


  /** Every slot the scan emits over such a timeline, and the provisional
      slot opened for it, is accepted by the validating `TimeSlot`
      constructor and stored unchanged as long as the series ends by the
      last representable minute. So the scan never throws. */
  lemma {:induction false} SeriesSlotConstructible(timeline: Minutes, from: int, to: int, p: int)
    requires SeriesTimeline(timeline, from, to) && to <= LastMinute
    requires 0 <= p < |AvailableSlots(Ordered(timeline, SeriesKeys(from, to)))|
    ensures var s := AvailableSlots(Ordered(timeline, SeriesKeys(from, to)))[p];
            New(s.start, s.end) == Ok(s) && New(s.start, DistantFuture).Ok?
  {
    var s := AvailableSlots(Ordered(timeline, SeriesKeys(from, to)))[p];
    SeriesSlotBounds(timeline, from, to, p);
    CalibrateIdempotent(s.start);
    CalibrateIdempotent(s.end);
    NewStoresCalibrated(s.start, s.end);
    assert CalibrateToMinutes(DistantFuture) == LastMinute - TicksPerMinute;
  }
}
