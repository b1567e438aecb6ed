/**
 The raw-file locator: lists the `.raw` files of the day directories a time
 window spans and keeps those whose file name carries a date inside the
 window.

 The two collaborators it cannot do without are parameters: `glob` answers a
 shell-style pattern with the URLs of the matching remote files, and `parse`
 extracts the first date/time in a file name as an instant, or fails.
 */
module RawFiles {
  import opened Outcomes
  import opened Calendar
  import opened Paths
  import opened DayRange

  /** A remote directory listing: pattern to matching URLs, in listing order. */
  type Lister = string -> seq<string>

  /** The fuzzy timestamp extractor: a file name to an instant, or `None` when it holds no date. */
  type TimestampParser = string -> Option<int>

  datatype ListingError = Unparseable(name: string)

  /** The timestamp carried by a file URL, read from its file name. */
  function Stamp(url: string, parse: TimestampParser): Option<int>
  {
    parse(FileName(url))
  }

  /** The timestamp of a file listed in a directory is read from its entry name alone. */
  lemma StampOfEntry(dir: string, entry: string, parse: TimestampParser)
    requires '/' !in entry
    ensures Stamp(dir + "/" + entry, parse) == parse(entry)
  {
    FileNameOfEntry(dir, entry);
  }

  /**
   Whether a file's date lies between `start`'s date and `end`'s date, both
   included, comparing calendar dates only.
   */
  function InRange(url: string, start: int, end: int, parse: TimestampParser): (r: Result<bool, ListingError>)
    ensures r.Ok? <==> Stamp(url, parse).Some?
    ensures r.Err? ==> r.error == Unparseable(FileName(url))
    ensures r.Ok? ==> (r.value <==> DayOf(start) <= DayOf(Stamp(url, parse).value) <= DayOf(end))
  {
    match Stamp(url, parse)
    case None => Err(Unparseable(FileName(url)))
    case Some(stamp) =>
      DateOrderIsDayOrder(start, stamp);
      DateOrderIsDayOrder(stamp, end);
      Ok(DateLeq(DateOf(start), DateOf(stamp)) && DateLeq(DateOf(stamp), DateOf(end)))
  }

  /** The URL is kept by the range filter. */
  predicate Accepted(url: string, start: int, end: int, parse: TimestampParser)
  {
    InRange(url, start, end, parse) == Ok(true)
  }

  /** Every URL's file name holds a timestamp. */
  predicate AllStamped(urls: seq<string>, parse: TimestampParser)
  {
    forall i :: 0 <= i < |urls| ==> Stamp(urls[i], parse).Some?
  }

  /** `a` is `b` with some elements left out and the rest kept in order. */
  predicate IsSubsequence<T(==)>(a: seq<T>, b: seq<T>)
    decreases |b|
  {
    if a == [] then true
    else if b == [] then false
    else (a[0] == b[0] && IsSubsequence(a[1..], b[1..])) || IsSubsequence(a, b[1..])
  }

  /** `a` holds exactly the elements of `b` that `keep` accepts, as many times as `b` does. */
  ghost predicate KeepsExactly(a: seq<string>, b: seq<string>, keep: string -> bool)
  {
    forall u :: multiset(a)[u] == if keep(u) then multiset(b)[u] else 0
  }

  /**
   `list(filter(decide, urls))` where `decide` may raise: the accepted URLs in
   listing order, or the error `decide` reports on the first URL it fails on.
   */
  function Filter<E>(urls: seq<string>, decide: string -> Result<bool, E>): (r: Result<seq<string>, E>)
    ensures r.Ok? <==> forall i :: 0 <= i < |urls| ==> decide(urls[i]).Ok?
    ensures r.Ok? ==> IsSubsequence(r.value, urls)
    ensures r.Ok? ==> KeepsExactly(r.value, urls, u => decide(u) == Ok(true))
  {
    if urls == [] then Ok([])
    else
      assert urls == [urls[0]] + urls[1..];
      match decide(urls[0])
      case Err(e) => Err(e)
      case Ok(keep) =>
        match Filter(urls[1..], decide)
        case Err(e) => Err(e)
        case Ok(rest) =>
          if keep then Ok([urls[0]] + rest) else Ok(rest)
  }

  /** A failed filter reports the error of the first URL, in listing order, that `decide` fails on. */
  lemma {:induction false} FilterReportsFirstFailure<E>(urls: seq<string>, decide: string -> Result<bool, E>)
    requires Filter(urls, decide).Err?
    ensures exists i :: 0 <= i < |urls| && decide(urls[i]).Err? && Filter(urls, decide).error == decide(urls[i]).error
                        && forall j :: 0 <= j < i ==> decide(urls[j]).Ok?
  {
    if decide(urls[0]).Ok? {
      FilterReportsFirstFailure(urls[1..], decide);
      var i :| 0 <= i < |urls[1..]| && decide(urls[1..][i]).Err? && Filter(urls[1..], decide).error == decide(urls[1..][i]).error
               && forall j :: 0 <= j < i ==> decide(urls[1..][j]).Ok?;
      assert decide(urls[i + 1]).Err?;
      assert forall j :: 0 <= j < i + 1 ==> decide(urls[j]).Ok? by {
        forall j | 0 <= j < i + 1
          ensures decide(urls[j]).Ok?
        {
          if j > 0 {
            assert urls[j] == urls[1..][j - 1];
          }
        }
      }
    }
  }

  /** `lambda u: in_range(u, start, end)` */
  function InRangeOf(start: int, end: int, parse: TimestampParser): string -> Result<bool, ListingError>
  {
    u => InRange(u, start, end, parse)
  }

  /**
   `list(filter(lambda u: in_range(u, start, end), urls))`: the URLs in range
   in listing order, or the error of the first file name without a timestamp.
   */
  function KeepInRange(urls: seq<string>, start: int, end: int, parse: TimestampParser)
    : (r: Result<seq<string>, ListingError>)
    ensures r.Ok? <==> AllStamped(urls, parse)
    ensures r.Ok? ==> IsSubsequence(r.value, urls)
    ensures r.Ok? ==> KeepsExactly(r.value, urls, u => Accepted(u, start, end, parse))
  {
    Filter(urls, InRangeOf(start, end, parse))
  }

  /** A failed listing names the first file, in listing order, whose name holds no timestamp. */
  lemma KeepInRangeReportsFirstFailure(urls: seq<string>, start: int, end: int, parse: TimestampParser)
    requires KeepInRange(urls, start, end, parse).Err?
    ensures exists i :: 0 <= i < |urls| && Stamp(urls[i], parse).None? && AllStamped(urls[..i], parse)
                        && KeepInRange(urls, start, end, parse).error == Unparseable(FileName(urls[i]))
  {
    var decide := InRangeOf(start, end, parse);
    FilterReportsFirstFailure(urls, decide);
    var i :| 0 <= i < |urls| && decide(urls[i]).Err? && Filter(urls, decide).error == decide(urls[i]).error
             && forall j :: 0 <= j < i ==> decide(urls[j]).Ok?;
    assert decide(urls[i]) == InRange(urls[i], start, end, parse);
    PrefixStamped(urls, i, start, end, parse);
  }

  /** Files on which the range test succeeds all hold a timestamp. */
  lemma PrefixStamped(urls: seq<string>, i: int, start: int, end: int, parse: TimestampParser)
    requires 0 <= i <= |urls|
    requires forall j :: 0 <= j < i ==> InRangeOf(start, end, parse)(urls[j]).Ok?
    ensures AllStamped(urls[..i], parse)
  {
    forall j | 0 <= j < i
      ensures Stamp(urls[..i][j], parse).Some?
    {
      assert InRangeOf(start, end, parse)(urls[j]) == InRange(urls[j], start, end, parse);
      assert urls[..i][j] == urls[j];
    }
  }

  /** Every URL the filter returns is in range, and every URL in range it was given is returned. */
  lemma KeepInRangeIsExact(urls: seq<string>, start: int, end: int, parse: TimestampParser)
    requires KeepInRange(urls, start, end, parse).Ok?
    ensures forall u :: u in KeepInRange(urls, start, end, parse).value ==> Accepted(u, start, end, parse)
    ensures forall u :: u in urls && Accepted(u, start, end, parse) ==> u in KeepInRange(urls, start, end, parse).value
  {
    var kept := KeepInRange(urls, start, end, parse).value;
    forall u | u in kept
      ensures Accepted(u, start, end, parse)
    {
      assert multiset(kept)[u] > 0;
    }
    forall u | u in urls && Accepted(u, start, end, parse)
      ensures u in kept
    {
      assert multiset(urls)[u] > 0;
    }
  }

  /**
   The flattened listings of the `.raw` files of each directory in turn:
   directory by directory, each listing in its own order.
   */
  function Listing(dirs: seq<string>, glob: Lister): (r: seq<string>)
    ensures forall u :: u in r <==> exists k :: 0 <= k < |dirs| && u in glob(dirs[k] + RawPattern)
  {
    if dirs == [] then []
    else
      var r := glob(dirs[0] + RawPattern) + Listing(dirs[1..], glob);
      assert forall k :: 0 < k < |dirs| ==> dirs[k] == dirs[1..][k - 1];
      r
  }

  /** Listing several directories is listing each in turn, one after the other. */
  lemma {:induction false} ListingAppend(a: seq<string>, b: seq<string>, glob: Lister)
    ensures Listing(a + b, glob) == Listing(a, glob) + Listing(b, glob)
  {
    if a == [] {
      assert a + b == b;
    } else {
      assert (a + b)[0] == a[0] && (a + b)[1..] == a[1..] + b;
      ListingAppend(a[1..], b, glob);
    }
  }

  /** The listing depends on `glob` only through the patterns of the given directories. */
  lemma {:induction false} ListingUsesOnlyItsPatterns(dirs: seq<string>, glob: Lister, glob': Lister)
    requires forall k :: 0 <= k < |dirs| ==> glob(dirs[k] + RawPattern) == glob'(dirs[k] + RawPattern)
    ensures Listing(dirs, glob) == Listing(dirs, glob')
  {
    if dirs != [] {
      ListingUsesOnlyItsPatterns(dirs[1..], glob, glob');
    }
  }

  /** One directory URL for each enumerated day, in enumeration order. */
  function DayDirectories(base: string, start: int, end: int): (dirs: seq<string>)
  {
    var days := DayStarts(start, end);
    seq(|days|, k requires 0 <= k < |days| => DayUrl(base, days[k]))
  }

  /**
   The directories are those of the consecutive days from `start`'s, one per
   day and no two alike; none when `start` is after `end`.
   */
  lemma DayDirectoriesAreTheListedDays(base: string, start: int, end: int)
    ensures |DayDirectories(base, start, end)| == |DayStarts(start, end)|
    ensures start > end ==> DayDirectories(base, start, end) == []
    ensures forall k :: 0 <= k < |DayDirectories(base, start, end)| ==>
              ParseDayDirectory(base, DayDirectories(base, start, end)[k]) == Some(DateOf(start + k * 86_400_000))
    ensures forall i, j :: 0 <= i < j < |DayDirectories(base, start, end)| ==>
              DayDirectories(base, start, end)[i] != DayDirectories(base, start, end)[j]
  {
    var days := DayStarts(start, end);
    var dirs := DayDirectories(base, start, end);
    if start <= end {
      ListedDays(start, end);
    }
    forall k | 0 <= k < |dirs|
      ensures ParseDayDirectory(base, dirs[k]) == Some(DateOf(start + k * 86_400_000))
    {
      DayUrlNamesDate(base, days[k]);
    }
    forall i, j | 0 <= i < j < |dirs|
      ensures dirs[i] != dirs[j]
    {
      DayUrlInjective(base, days[i], days[j]);
    }
  }

  /** Everything the day directories of the window list, day by day. */
  function Candidates(base: string, start: int, end: int, glob: Lister): seq<string>
  {
    Listing(DayDirectories(base, start, end), glob)
  }

  /** Some enumerated day's `*.raw` glob returns `u`. */
  predicate ListedOnSomeDay(u: string, base: string, start: int, end: int, glob: Lister)
  {
    exists k :: 0 <= k < |DayStarts(start, end)| && u in glob(DayUrl(base, DayStarts(start, end)[k]) + RawPattern)
  }

  /** A URL is a candidate exactly when the `*.raw` glob of some enumerated day's directory returns it. */
  lemma CandidatesAreDayListings(base: string, start: int, end: int, glob: Lister)
    ensures forall u :: u in Candidates(base, start, end, glob) <==> ListedOnSomeDay(u, base, start, end, glob)
  {
    forall u
      ensures u in Candidates(base, start, end, glob) <==> ListedOnSomeDay(u, base, start, end, glob)
    {
      CandidateIffListedOnSomeDay(base, start, end, glob, u);
    }
  }

  /** The membership of one URL, both directions. */
  lemma CandidateIffListedOnSomeDay(base: string, start: int, end: int, glob: Lister, u: string)
    ensures u in Candidates(base, start, end, glob) <==> ListedOnSomeDay(u, base, start, end, glob)
  {
    if u in Candidates(base, start, end, glob) {
      CandidateIsListedOnSomeDay(base, start, end, glob, u);
    }
    if ListedOnSomeDay(u, base, start, end, glob) {
      ListedOnSomeDayIsCandidate(base, start, end, glob, u);
    }
  }

  /** A candidate came from some enumerated day's glob. */
  lemma CandidateIsListedOnSomeDay(base: string, start: int, end: int, glob: Lister, u: string)
    requires u in Candidates(base, start, end, glob)
    ensures ListedOnSomeDay(u, base, start, end, glob)
  {
    var dirs := DayDirectories(base, start, end);
    assert u in Listing(dirs, glob);
    var k :| 0 <= k < |dirs| && u in glob(dirs[k] + RawPattern);
    DayDirectoryAt(base, start, end, k);
  }

  /** What some enumerated day's glob returns is a candidate. */
  lemma ListedOnSomeDayIsCandidate(base: string, start: int, end: int, glob: Lister, u: string)
    requires ListedOnSomeDay(u, base, start, end, glob)
    ensures u in Candidates(base, start, end, glob)
  {
    var days := DayStarts(start, end);
    var dirs := DayDirectories(base, start, end);
    var k :| 0 <= k < |days| && u in glob(DayUrl(base, days[k]) + RawPattern);
    DayDirectoryAt(base, start, end, k);
    assert u in Listing(dirs, glob);
  }

  /** The k-th directory is that of the k-th enumerated day. */
  lemma DayDirectoryAt(base: string, start: int, end: int, k: int)
    requires 0 <= k < |DayStarts(start, end)|
    ensures k < |DayDirectories(base, start, end)|
    ensures DayDirectories(base, start, end)[k] == DayUrl(base, DayStarts(start, end)[k])
  {
  }

  /**
   `get_raw_file_url(base, start, end)`: the `.raw` files of every enumerated
   day directory whose date is within the window, in listing order.
   */
  function ListRawFiles(base: string, start: int, end: int, glob: Lister, parse: TimestampParser)
    : (r: Result<seq<string>, ListingError>)
    ensures start > end ==> r == Ok([])
    ensures r.Ok? <==> AllStamped(Candidates(base, start, end, glob), parse)
    ensures r.Ok? ==> IsSubsequence(r.value, Candidates(base, start, end, glob))
    ensures r.Ok? ==> KeepsExactly(r.value, Candidates(base, start, end, glob), u => Accepted(u, start, end, parse))
  {
    DayDirectoriesAreTheListedDays(base, start, end);
    KeepInRange(Candidates(base, start, end, glob), start, end, parse)
  }

  /**
   Every file returned is dated within the window, and every file listed for
   the window's days that is dated within it is returned.
   */
  lemma ListRawFilesIsExact(base: string, start: int, end: int, glob: Lister, parse: TimestampParser)
    requires ListRawFiles(base, start, end, glob, parse).Ok?
    ensures forall u :: u in ListRawFiles(base, start, end, glob, parse).value ==>
              Stamp(u, parse).Some? && DayOf(start) <= DayOf(Stamp(u, parse).value) <= DayOf(end)
    ensures forall u :: u in Candidates(base, start, end, glob) && Stamp(u, parse).Some?
                        && DayOf(start) <= DayOf(Stamp(u, parse).value) <= DayOf(end)
                        ==> u in ListRawFiles(base, start, end, glob, parse).value
  {
    var listed := Candidates(base, start, end, glob);
    if start <= end {
      KeepInRangeIsExact(listed, start, end, parse);
    }
  }

  /** Only the listings of the enumerated day directories matter to the result. */
  lemma ListRawFilesUsesOnlyDayListings(base: string, start: int, end: int, glob: Lister, glob': Lister, parse: TimestampParser)
    requires forall k :: 0 <= k < |DayStarts(start, end)| ==>
               glob(DayUrl(base, DayStarts(start, end)[k]) + RawPattern) == glob'(DayUrl(base, DayStarts(start, end)[k]) + RawPattern)
    ensures ListRawFiles(base, start, end, glob, parse) == ListRawFiles(base, start, end, glob', parse)
  {
    ListingUsesOnlyItsPatterns(DayDirectories(base, start, end), glob, glob');
    assert Candidates(base, start, end, glob) == Candidates(base, start, end, glob');
  }

  /**
   When `end`'s time of day is earlier than `start`'s, `end`'s day directory is
   never listed, although a file stamped on that day passes the range filter.
   */
  lemma EndDayDirectorySkipped(base: string, start: int, end: int, url: string, parse: TimestampParser)
    requires start <= end && TimeOfDay(end) < TimeOfDay(start)
    requires Stamp(url, parse).Some? && DayOf(Stamp(url, parse).value) == DayOf(end)
    ensures DayUrl(base, end) !in DayDirectories(base, start, end)
    ensures Accepted(url, start, end, parse)
  {
    EndDayNotListed(base, start, end);
    AcceptedOnEndDay(url, start, end, parse);
  }

  /** A file stamped on `end`'s day is in range whenever `start` is not after `end`. */
  lemma AcceptedOnEndDay(url: string, start: int, end: int, parse: TimestampParser)
    requires start <= end
    requires Stamp(url, parse).Some? && DayOf(Stamp(url, parse).value) == DayOf(end)
    ensures Accepted(url, start, end, parse)
  {
    assert DayOf(start) <= DayOf(end);
  }

  lemma EndDayNotListed(base: string, start: int, end: int)
    requires start <= end && TimeOfDay(end) < TimeOfDay(start)
    ensures DayUrl(base, end) !in DayDirectories(base, start, end)
  {
    var days := DayStarts(start, end);
    var dirs := DayDirectories(base, start, end);
    ListedDays(start, end);
    forall k | 0 <= k < |dirs|
      ensures dirs[k] != DayUrl(base, end)
    {
      assert DayOf(days[k]) != DayOf(end);
      DayUrlInjective(base, days[k], end);
    }
  }

  /** Two URLs with the same file name are accepted or refused alike. */
  lemma InRangeDependsOnlyOnFileName(url: string, url': string, start: int, end: int, parse: TimestampParser)
    requires FileName(url) == FileName(url')
    ensures InRange(url, start, end, parse) == InRange(url', start, end, parse)
  {
  }

  /** Moving `start` or `end` within its own day changes nothing: only dates are compared. */
  lemma InRangeIgnoresTimeOfDay(url: string, start: int, end: int, start': int, end': int, parse: TimestampParser)
    requires DayOf(start) == DayOf(start') && DayOf(end) == DayOf(end')
    ensures InRange(url, start, end, parse) == InRange(url, start', end', parse)
  {
  }

  /** A file stamped later on `end`'s day than `end` itself is still accepted. */
  lemma InRangeIncludesAllOfEndDay(url: string, start: int, end: int, parse: TimestampParser)
    requires start <= end
    requires Stamp(url, parse).Some? && end < Stamp(url, parse).value && DayOf(Stamp(url, parse).value) == DayOf(end)
    ensures Accepted(url, start, end, parse)
  {
  }

  /** The UTC window `[start, end]` searched for one local day. */
  datatype Window = Window(start: int, end: int)

  /** The last millisecond of a day, counted from its first: 23:59:59.999. */
  const LastOfDay: int := Duration(0, 23, 59, 59, 999)

  /**
   The UTC window for the local day beginning at `day` with the given offset:
   the local day moved to UTC, padded by one more day at the end.
   */
  function DailyWindow(day: int, utcOffset: int): (w: Window)
    ensures w.end - w.start == 2 * MsPerDay - 1
    ensures w.start <= day - utcOffset && day + LastOfDay - utcOffset <= w.end
  {
    var startUtc := day - utcOffset;
    var endUtc := day + LastOfDay - utcOffset + Duration(1, 0, 0, 0, 0);
    Window(startUtc, endUtc)
  }

  /**
   A window one millisecond short of two days, starting at `s`, lists two day
   directories: that of its first day and that of `n`, one day later.
   */
  lemma TwoDayWindowDirectories(base: string, s: int, n: int, e: int)
    requires n == s + MsPerDay && e == n + MsPerDay - 1
    ensures var dirs := DayDirectories(base, s, e);
            |dirs| == 2 && dirs[0] == DayUrl(base, s) && dirs[1] == DayUrl(base, n)
  {
    TwoDayStarts(s, n, e);
  }

  /** Every instant of the first day-length of such a window lies on one of its two listed days. */
  lemma TwoDayWindowCovers(base: string, s: int, n: int, e: int, t: int)
    requires n == s + MsPerDay && e == n + MsPerDay - 1
    requires s <= t < n
    ensures DayUrl(base, t) in DayDirectories(base, s, e)
  {
    TwoDayWindowDirectories(base, s, n, e);
    var dirs := DayDirectories(base, s, e);
    if DayOf(t) == DayOf(s) {
      DayUrlInjective(base, t, s);
      assert dirs[0] == DayUrl(base, t);
    } else {
      FirstDayOrNext(s, n, t);
      DayUrlInjective(base, t, n);
      assert dirs[1] == DayUrl(base, t);
    }
  }

  /** An instant less than a day after `s` falls on `s`'s day or on the next. */
  lemma FirstDayOrNext(s: int, n: int, t: int)
    requires n == s + MsPerDay && s <= t < n
    ensures DayOf(t) == DayOf(s) || DayOf(t) == DayOf(n)
  {
    DayAndTimeOfDay(s);
    DayAndTimeOfDay(n);
    DayAndTimeOfDay(t);
  }

  /** Such a window ends at an earlier time of day than it starts, unless it starts at midnight. */
  lemma TwoDayWindowEndsBeforeStartTime(s: int, e: int)
    requires e == s + 2 * MsPerDay - 1
    requires TimeOfDay(s) != 0
    ensures TimeOfDay(e) < TimeOfDay(s)
  {
    DayAndTimeOfDay(s);
    DayAndTimeOfDay(e);
  }

  /** The candidates of such a window are the listings of its two days, in order. */
  lemma TwoDayWindowCandidates(base: string, s: int, n: int, e: int, glob: Lister)
    requires n == s + MsPerDay && e == n + MsPerDay - 1
    ensures Candidates(base, s, e, glob) == glob(DayUrl(base, s) + RawPattern) + glob(DayUrl(base, n) + RawPattern)
  {
    TwoDayWindowDirectories(base, s, n, e);
    ListingOfTwo(DayDirectories(base, s, e), glob);
  }

  lemma ListingOfTwo(dirs: seq<string>, glob: Lister)
    requires |dirs| == 2
    ensures Listing(dirs, glob) == glob(dirs[0] + RawPattern) + glob(dirs[1] + RawPattern)
  {
    assert dirs[1..][1..] == [];
    assert Listing(dirs[1..], glob) == glob(dirs[1] + RawPattern) + Listing([], glob);
    assert glob(dirs[1] + RawPattern) + [] == glob(dirs[1] + RawPattern);
  }

  /**
   Whatever the offset, exactly two day directories are listed for a local
   day: those of the window's first day and of the day after.
   */
  lemma DailyDirectories(base: string, day: int, utcOffset: int)
    ensures var w := DailyWindow(day, utcOffset);
            var dirs := DayDirectories(base, w.start, w.end);
            |dirs| == 2 && dirs[0] == DayUrl(base, w.start) && dirs[1] == DayUrl(base, w.start + MsPerDay)
  {
    var w := DailyWindow(day, utcOffset);
    NextDay(w.start);
    TwoDayWindowDirectories(base, w.start, w.start + MsPerDay, w.end);
  }

  /**
   Every instant of the local day, moved to UTC, falls on a day whose
   directory is listed: the window's padding covers the local day.
   */
  lemma DailyListingCoversLocalDay(base: string, day: int, utcOffset: int, t: int)
    requires day - utcOffset <= t <= day + LastOfDay - utcOffset
    ensures var w := DailyWindow(day, utcOffset);
            DayUrl(base, t) in DayDirectories(base, w.start, w.end)
  {
    var w := DailyWindow(day, utcOffset);
    TwoDayWindowCovers(base, w.start, w.start + MsPerDay, w.end, t);
  }

  /**
   When the window does not start at midnight UTC, its last day's directory
   is not listed, though files stamped that day pass the filter.
   */
  lemma DailyWindowSkipsLastDay(base: string, day: int, utcOffset: int, url: string, parse: TimestampParser)
    requires TimeOfDay(day - utcOffset) != 0
    requires Stamp(url, parse).Some? && DayOf(Stamp(url, parse).value) == DayOf(DailyWindow(day, utcOffset).end)
    ensures var w := DailyWindow(day, utcOffset);
            DayUrl(base, w.end) !in DayDirectories(base, w.start, w.end) && Accepted(url, w.start, w.end, parse)
  {
    var w := DailyWindow(day, utcOffset);
    TwoDayWindowEndsBeforeStartTime(w.start, w.end);
    EndDayDirectorySkipped(base, w.start, w.end, url, parse);
  }

  /**
   `get_daily_raw_file_url(base, day, utc_offset)`: the listing and filter of
   `get_raw_file_url` over the day's padded UTC window, which lists the
   window's first day and the day after.
   */
  function ListDailyRawFiles(base: string, day: int, utcOffset: int, glob: Lister, parse: TimestampParser)
    : (r: Result<seq<string>, ListingError>)
    ensures var w := DailyWindow(day, utcOffset);
            var listed := glob(DayUrl(base, w.start) + RawPattern) + glob(DayUrl(base, w.start + MsPerDay) + RawPattern);
            && (r.Ok? <==> AllStamped(listed, parse))
            && (r.Ok? ==> IsSubsequence(r.value, listed))
            && (r.Ok? ==> KeepsExactly(r.value, listed, u => Accepted(u, w.start, w.end, parse)))
  {
    var w := DailyWindow(day, utcOffset);
    NextDay(w.start);
    TwoDayWindowCandidates(base, w.start, w.start + MsPerDay, w.end, glob);
    ListRawFiles(base, w.start, w.end, glob, parse)
  }

  /**
   A local day `z` at eight hours behind UTC (2021-06-01, say): the window runs
   from 08:00 UTC on day `z` to 07:59:59.999 UTC on day `z + 2`, yet only the
   directories of days `z` and `z + 1` are listed; that of day `z + 2` is not.
   */
  lemma EightHoursBehind(base: string, z: int)
    ensures var w := DailyWindow(z * 86_400_000, Duration(0, -8, 0, 0, 0));
            var dirs := DayDirectories(base, w.start, w.end);
            && |dirs| == 2
            && dirs[0] == DayDirectory(base, CivilFromDays(z))
            && dirs[1] == DayDirectory(base, CivilFromDays(z + 1))
            && DayDirectory(base, CivilFromDays(z + 2)) !in dirs
  {
    var w := DailyWindow(z * 86_400_000, Duration(0, -8, 0, 0, 0));
    EightHoursBehindWindow(z);
    TwoDayWindowOfDay(base, w.start, w.end, z);
    EndDayNotListed(base, w.start, w.end);
    DayUrlOfDay(base, w.end, z + 2);
  }

  /** The two directories a two-day window starting on day `z` lists, named by their dates. */
  lemma TwoDayWindowOfDay(base: string, s: int, e: int, z: int)
    requires e == s + 2 * MsPerDay - 1 && DayOf(s) == z
    ensures var dirs := DayDirectories(base, s, e);
            && |dirs| == 2
            && dirs[0] == DayDirectory(base, CivilFromDays(z))
            && dirs[1] == DayDirectory(base, CivilFromDays(z + 1))
  {
    TwoDayWindowDirectories(base, s, s + MsPerDay, e);
    NextDay(s);
    DirectoriesOfTwoDays(DayDirectories(base, s, e), base, s, z);
  }

  /** The directories of an instant on day `z` and of one day later are those of days `z` and `z + 1`. */
  lemma DirectoriesOfTwoDays(dirs: seq<string>, base: string, s: int, z: int)
    requires |dirs| == 2 && dirs[0] == DayUrl(base, s) && dirs[1] == DayUrl(base, s + MsPerDay)
    requires DayOf(s) == z && DayOf(s + MsPerDay) == z + 1
    ensures dirs[0] == DayDirectory(base, CivilFromDays(z))
    ensures dirs[1] == DayDirectory(base, CivilFromDays(z + 1))
  {
    DirectoryOfDay(dirs[0], base, s, z);
    DirectoryOfDay(dirs[1], base, s + MsPerDay, z + 1);
  }

  /** The directory of an instant on day `z`, named by that day's date. */
  lemma DirectoryOfDay(dir: string, base: string, t: int, z: int)
    requires dir == DayUrl(base, t) && DayOf(t) == z
    ensures dir == DayDirectory(base, CivilFromDays(z))
  {
    DayUrlOfDay(base, t, z);
  }

  /** The directory of an instant on day `z` is the directory of that day's date. */
  lemma DayUrlOfDay(base: string, t: int, z: int)
    requires DayOf(t) == z
    ensures DayUrl(base, t) == DayDirectory(base, CivilFromDays(z))
  {
  }

  /** The days and times of day at which that window starts and ends. */
  lemma EightHoursBehindWindow(z: int)
    ensures var w := DailyWindow(z * 86_400_000, Duration(0, -8, 0, 0, 0));
            && DayOf(w.start) == z && DayOf(w.start + MsPerDay) == z + 1 && DayOf(w.end) == z + 2
            && TimeOfDay(w.end) < TimeOfDay(w.start)
  {
    var w := DailyWindow(z * 86_400_000, Duration(0, -8, 0, 0, 0));
    assert w.start == z * 86_400_000 + 28_800_000;
    assert w.end == (z + 2) * 86_400_000 + 28_799_999;
  }
}
