/** The per-minute availability timeline that `Calendar` builds for one
    query (MeetingCalendar/Calendar.cs), and the merge of busy minutes into
    it.

    The source keeps the timeline in a dictionary from minute to
    `AvailabilityTypes`. Each busy minute is merged by "if the key is present
    and still Available, set it to Scheduled" — sequentially, or through
    `ConcurrentDictionary.TryUpdate` in parallel. Here the sequential fold
    is modelled, and the lemmas show that its outcome depends only on the set
    of minutes merged, which is what makes any parallel interleaving agree. */
module Timeline {
  import opened DateTimes
  import opened TimeSlots
  import opened TimeSlotExtensions

  /** `AvailabilityTypes`. The legacy calendar's `bool` timeline uses
      `false` for `Available` and `true` for `Scheduled`. */
  datatype Availability = Available | Scheduled

  /** One dictionary entry as listed after ordering by key. */
  datatype Entry = Entry(key: int, value: Availability)

  type Minutes = map<int, Availability>

  /** One merge step: only a minute that is already a key and still
      Available changes, and it changes to Scheduled. */
  function Mark(timeline: Minutes, key: int): Minutes {
    if key in timeline && timeline[key] == Available then timeline[key := Scheduled] else timeline
  }

  /** Merging a run of minutes in the given order. Keys never change, a
      Scheduled minute stays Scheduled, and a minute ends Scheduled exactly
      when it was already, or was merged. */
  function MarkAll(timeline: Minutes, keys: seq<int>): (r: Minutes)
    ensures r.Keys == timeline.Keys
    ensures forall k :: k in timeline ==> (r[k] == Scheduled <==> timeline[k] == Scheduled || k in keys)
    decreases |keys|
  {
    if |keys| == 0 then timeline else MarkAll(Mark(timeline, keys[0]), keys[1..])
  }

  /** The order of the merged minutes (and repetitions) does not matter:
      only the set of minutes does. */
  lemma MarkAllOrderFree(timeline: Minutes, keys1: seq<int>, keys2: seq<int>)
    requires forall k :: k in keys1 <==> k in keys2
    ensures MarkAll(timeline, keys1) == MarkAll(timeline, keys2)
  {
    var r1 := MarkAll(timeline, keys1);
    var r2 := MarkAll(timeline, keys2);
    forall k | k in r1
      ensures r1[k] == r2[k]
    {
      if r1[k] == Scheduled {
        assert r2[k] == Scheduled;
      } else {
        assert r2[k] != Scheduled;
      }
    }
  }

  /** A minute lies in a clipped meeting's series: the minutes the source
      marks for that meeting. */
  ghost predicate InWindows(windows: seq<TimeSlot>, k: int) {
    exists w :: w in windows && k in SeriesKeys(w.start, w.end)
  }

  /** The sequential fill: for each clipped meeting in turn, merge every
      minute of its series. A timeline minute ends Scheduled exactly when it
      started Scheduled or some meeting's series contains it. */
  function FillWindows(timeline: Minutes, windows: seq<TimeSlot>): (r: Minutes)
    ensures r.Keys == timeline.Keys
    ensures forall k :: k in timeline ==> (r[k] == Scheduled <==> timeline[k] == Scheduled || InWindows(windows, k))
    decreases |windows|
  {
    if |windows| == 0 then timeline
    else
      var w := windows[0];
      var next := MarkAll(timeline, SeriesKeys(w.start, w.end));
      var r := FillWindows(next, windows[1..]);
      assert forall k :: k in timeline ==> (InWindows(windows, k) <==> k in SeriesKeys(w.start, w.end) || InWindows(windows[1..], k)) by {
        forall k | k in timeline
          ensures InWindows(windows, k) <==> k in SeriesKeys(w.start, w.end) || InWindows(windows[1..], k)
        {
          if InWindows(windows, k) {
            var v :| v in windows && k in SeriesKeys(v.start, v.end);
            if v != w {
              assert v in windows[1..];
            }
          }
        }
      }
      r
  }

  /** The parallel path merges the same minutes in some interleaving; any
      such order gives the sequential result. */
  lemma ParallelFillAgrees(timeline: Minutes, windows: seq<TimeSlot>, interleaving: seq<int>)
    requires forall k :: k in interleaving <==> InWindows(windows, k)
    ensures MarkAll(timeline, interleaving) == FillWindows(timeline, windows)
  {
    var r1 := MarkAll(timeline, interleaving);
    var r2 := FillWindows(timeline, windows);
    forall k | k in r1
      ensures r1[k] == r2[k]
    {
      if r1[k] == Scheduled {
        assert r2[k] == Scheduled;
      } else {
        assert r2[k] != Scheduled;
      }
    }
  }

  /** Reordering the meetings (across or within attendees) does not change
      the filled timeline. */
  lemma FillWindowsOrderFree(timeline: Minutes, windows1: seq<TimeSlot>, windows2: seq<TimeSlot>)
    requires forall w :: w in windows1 <==> w in windows2
    ensures FillWindows(timeline, windows1) == FillWindows(timeline, windows2)
  {
    var r1 := FillWindows(timeline, windows1);
    var r2 := FillWindows(timeline, windows2);
    forall k | k in r1
      ensures r1[k] == r2[k]
    {
      assert InWindows(windows1, k) <==> InWindows(windows2, k);
      if r1[k] == Scheduled {
        assert r2[k] == Scheduled;
      } else {
        assert r2[k] != Scheduled;
      }
    }
  }

  /** More generally, two lists of windows that mark the same timeline
      minutes fill the timeline alike, whatever windows they hold. */
  lemma FillWindowsAgree(timeline: Minutes, windows1: seq<TimeSlot>, windows2: seq<TimeSlot>)
    requires forall k :: k in timeline ==> (InWindows(windows1, k) <==> InWindows(windows2, k))
    ensures FillWindows(timeline, windows1) == FillWindows(timeline, windows2)
  {
    var r1 := FillWindows(timeline, windows1);
    var r2 := FillWindows(timeline, windows2);
    forall k | k in r1
      ensures r1[k] == r2[k]
    {
      if r1[k] == Scheduled {
        assert r2[k] == Scheduled;
      } else {
        assert r2[k] != Scheduled;
      }
    }
  }

  /** The timeline listed in the order of the given keys (`OrderBy(Key)`
      when the keys are the ascending minute series). */
  function Ordered(timeline: Minutes, keys: seq<int>): seq<Entry> {
    seq(|keys|, i requires 0 <= i < |keys| =>
      Entry(keys[i], if keys[i] in timeline then timeline[keys[i]] else Available))
  }

  /** For a timeline whose keys are exactly the minute series [from, to),
      `Ordered` is the sorted listing of its entries: keys strictly
      ascending, one minute apart, and every dictionary pair appears once. */
  lemma OrderedIsSortedListing(timeline: Minutes, from: int, to: int)
    requires forall k :: k in timeline <==> k in SeriesKeys(from, to)
    ensures var es := Ordered(timeline, SeriesKeys(from, to));
            && (forall i :: 0 <= i < |es| ==> es[i].key == from + i * TicksPerMinute)
            && (forall i, j :: 0 <= i < j < |es| ==> es[i].key < es[j].key)
            && (forall e: Entry :: e in es <==> e.key in timeline && timeline[e.key] == e.value)
  {
    var es := Ordered(timeline, SeriesKeys(from, to));
    var ks := SeriesKeys(from, to);
    forall i | 0 <= i < |es|
      ensures es[i].key == from + i * TicksPerMinute
    {
      SeriesKeysAt(from, to, i);
    }
    forall i, j | 0 <= i < j < |es|
      ensures es[i].key < es[j].key
    {
      MinuteCounts(i, j);
    }
    forall e: Entry | e.key in timeline && timeline[e.key] == e.value
      ensures e in es
    {
      var i :| 0 <= i < |ks| && ks[i] == e.key;
      assert es[i] == e;
    }
  }
}
