/**
 Day enumeration, as `pandas.date_range(start, end, freq="D")` performs it:
 the instants `start, start + 1 day, start + 2 days, ...` up to and including
 `end`. The time of day of `start` is kept; nothing is rounded to midnight.
 */
module DayRange {
  import opened Calendar

  /** Every instant `start + k` days, in order, that is not after `end`. */
  function DayStarts(start: int, end: int): (r: seq<int>)
    ensures |r| == if start > end then 0 else (end - start) / 86_400_000 + 1
    ensures forall k :: 0 <= k < |r| ==> r[k] == start + k * 86_400_000
    ensures forall k :: 0 <= k < |r| ==> r[k] <= end
    ensures start + |r| * 86_400_000 > end
    decreases end - start
  {
    if start > end then [] else [start] + DayStarts(start + MsPerDay, end)
  }

  /** The enumeration is strictly increasing. */
  lemma DayStartsIncreasing(start: int, end: int)
    ensures forall i, j :: 0 <= i < j < |DayStarts(start, end)| ==> DayStarts(start, end)[i] < DayStarts(start, end)[j]
  {
  }

  /**
   The enumerated instants fall on consecutive days from `start`'s day. The
   last one falls on `end`'s day only when `end`'s time of day is not earlier
   than `start`'s; otherwise it falls on the day before.
   */
  lemma ListedDays(start: int, end: int)
    requires start <= end
    ensures forall k :: 0 <= k < |DayStarts(start, end)| ==> DayOf(DayStarts(start, end)[k]) == DayOf(start) + k
    ensures |DayStarts(start, end)| == DayOf(end) - DayOf(start) + (if TimeOfDay(start) <= TimeOfDay(end) then 1 else 0)
  {
    var r := DayStarts(start, end);
    DayAndTimeOfDay(start);
    DayAndTimeOfDay(end);
    forall k | 0 <= k < |r|
      ensures DayOf(r[k]) == DayOf(start) + k
    {
      assert r[k] == (DayOf(start) + k) * 86_400_000 + TimeOfDay(start);
    }
    var gap := end - start;
    assert gap == (DayOf(end) - DayOf(start)) * 86_400_000 + (TimeOfDay(end) - TimeOfDay(start));
  }

  /**
   `end`'s own day gets a directory exactly when `end`'s time of day is not
   earlier than `start`'s, although the range filter accepts files dated on
   `end`'s day either way.
   */
  lemma EndDayListedIff(start: int, end: int)
    requires start <= end
    ensures (exists k :: 0 <= k < |DayStarts(start, end)| && DayOf(DayStarts(start, end)[k]) == DayOf(end))
            <==> TimeOfDay(start) <= TimeOfDay(end)
  {
    var r := DayStarts(start, end);
    ListedDays(start, end);
    if TimeOfDay(start) <= TimeOfDay(end) {
      assert DayOf(r[|r| - 1]) == DayOf(end);
    }
  }

  /** A span one millisecond short of two days, from `start`, holds two day starts: `start` and `next`. */
  lemma TwoDayStarts(start: int, next: int, end: int)
    requires next == start + MsPerDay && end == next + MsPerDay - 1
    ensures DayStarts(start, end) == [start, next]
  {
    var r := DayStarts(start, end);
    assert |r| == 2;
  }
}
