# Raw-file locator of the OOI echosounder workflow

The locator finds the `.raw` echosounder files that an OOI site publishes over
HTTP for a span of time. Files sit in one directory per UTC day,
`<site>/YYYY/MM/DD/`, and each file name carries a timestamp.

`get_raw_file_url(file_url, start, end)` works in three steps:

- it enumerates the instants `start, start + 1 day, …` up to `end`;
- it builds one day directory URL for each of them and lists each directory's
  `*.raw` files, one directory after another;
- it keeps, in listing order, the files whose timestamp's date lies between
  `start`'s date and `end`'s date, both included.

`get_daily_raw_file_url(file_url, d, utc_offset)` does the same for one local
day. It converts the day to UTC and pads the window by one more day at its end.

The model is a set of Dafny modules:

- `Outcomes`: `Option` and `Result`.
- `Calendar`: a millisecond timeline and the proleptic Gregorian calendar that
  Python's `datetime` uses, with a proved date/day-number round trip.
- `Decimal`: `str(n)` and `f"{n:02d}"`, each with a reader that inverts it.
- `Paths`: the file name at the end of a URL, and the day directory URL with a
  reader that recovers its date.
- `DayRange`: the day enumeration of `pandas.date_range(start, end, freq="D")`.
- `RawFiles`: the range test, the listing, the filter and the two entry points.

Two collaborators are parameters, not models:

- `glob` (type `Lister`) answers a pattern with the URLs of matching remote
  files, in the server's order;
- `parse` (type `TimestampParser`) is the fuzzy date parser applied to a file
  name.

Instants are integer milliseconds since 1970-01-01T00:00, read as naive UTC.
Offsets from UTC are integer milliseconds.

A parse failure raises in the source and aborts the whole listing. It is
modelled as `Err(Unparseable(name))`, naming the first failing file in
listing order.

Behaviour the proofs bring out:

- The enumeration keeps `start`'s time of day. When `end`'s time of day is
  earlier than `start`'s, `end`'s own day directory is never listed. The range
  test still accepts files dated on that day (`EndDayListedIff`,
  `EndDayDirectorySkipped`).
- The daily window always spans two days less one millisecond, and for every
  offset exactly two directories are listed: those of the window's first day
  and of the next day (`DailyDirectories`). When the window does not start at
  midnight UTC, it also touches a third day, whose directory is skipped
  (`DailyWindowSkipsLastDay`). For example,
  at eight hours behind UTC the local day 2021-06-01 lists only `…/2021/06/01`
  and `…/2021/06/02` (`EightHoursBehind`). The directory of 2021-06-03 is not
  listed, although the window reaches 07:59:59.999 UTC on that day.
- Every instant of the local day, moved to UTC, still falls on a listed day
  (`DailyListingCoversLocalDay`).
- Only calendar dates are compared. A file stamped later on `end`'s day than
  `end` itself is accepted. No full-timestamp comparison exists in the code, so
  none is modelled.

## Model

| member | source | states |
|---|---|---|
| Calendar.CivilFromDays | gen_mvbs_utils.py:51 | the date `d.year`, `d.month`, `d.day` of a day number is a valid calendar date whose day number is that day |
| Calendar.CivilRoundTrip | gen_mvbs_utils.py:51 | every valid date is the calendar date of its own day number, so dates and days correspond one to one |
| Calendar.DateOf | gen_mvbs_utils.py:18-19 | `t.date()` is a valid calendar date whose day number is the day `t` falls on |
| Calendar.DateOrderIsDayNumberOrder | gen_mvbs_utils.py:17-20 | Python's year-month-day comparison of dates agrees with comparing their day numbers |
| Calendar.DateOrderIsDayOrder | gen_mvbs_utils.py:17-20 | `s.date() <= t.date()` holds exactly when `s` falls on the same day as `t` or an earlier one |
| Decimal.NatToString | gen_mvbs_utils.py:51 | `str(n)` is digits only, has no leading zero, and reads back as `n` |
| Decimal.IntToString | gen_mvbs_utils.py:51 | `str(year)` is digits with a leading '-' exactly when the year is negative, has no leading zero, holds no '/', and reads back as the year |
| Decimal.Pad2 | gen_mvbs_utils.py:51 | `f"{n:02d}"` is exactly two digits below 100, holds no '/', and reads back as `n` |
| Paths.FileName | gen_mvbs_utils.py:15 | `Path(url).name` is the slash-free tail of the URL, preceded by a '/' unless it is the whole URL |
| Paths.FileNameOfEntry | gen_mvbs_utils.py:15 | the name of `dir/entry` is `entry` for any slash-free entry |
| Paths.DayDirectory | gen_mvbs_utils.py:51 | `f"{file_url}/{d.year}/{d.month:02d}/{d.day:02d}"` is a URL under the base that reads back as the date it was built from |
| Paths.DayUrlInjective | gen_mvbs_utils.py:50-53 | two instants share a day directory exactly when they fall on the same day |
| DayRange.DayStarts | gen_mvbs_utils.py:49 | the enumeration is `start + k` days for `k = 0, 1, …`, none after `end`, and the next one would be after `end`; it is empty when `start > end` |
| DayRange.DayStartsIncreasing | gen_mvbs_utils.py:49 | the enumerated instants are strictly increasing |
| DayRange.ListedDays | gen_mvbs_utils.py:49 | the enumerated instants fall on consecutive days from `start`'s day; their number is the day difference, plus one when `end`'s time of day is not earlier than `start`'s |
| DayRange.EndDayListedIff | gen_mvbs_utils.py:49 | `end`'s day is enumerated if and only if `end`'s time of day is not earlier than `start`'s |
| DayRange.TwoDayStarts | gen_mvbs_utils.py:96 | a span two days less one millisecond long enumerates exactly its start and the instant one day later |
| RawFiles.StampOfEntry | gen_mvbs_utils.py:15-16 | the timestamp of a file listed in a directory is parsed from its entry name alone |
| RawFiles.InRange | gen_mvbs_utils.py:11-20 | it fails exactly when the file name holds no timestamp, naming that file; otherwise the file is in range if and only if its stamp's day lies between `start`'s day and `end`'s day, both included |
| RawFiles.Filter | gen_mvbs_utils.py:60-63 | it succeeds exactly when the decider succeeds on every URL; the result is an order-preserving subsequence holding each accepted URL as often as the input does, and nothing else |
| RawFiles.FilterReportsFirstFailure | gen_mvbs_utils.py:60-63 | a failed filter reports the error of the first URL, in listing order, that the decider fails on |
| RawFiles.KeepInRange | gen_mvbs_utils.py:60-63 | it succeeds exactly when every file name holds a timestamp; it keeps, in order and with their multiplicities, exactly the URLs in range |
| RawFiles.KeepInRangeReportsFirstFailure | gen_mvbs_utils.py:60-63 | a failure names the first file, in listing order, whose name holds no timestamp, and all files before it hold one |
| RawFiles.KeepInRangeIsExact | gen_mvbs_utils.py:60-63 | every URL kept is in range, and every URL given that is in range is kept |
| RawFiles.Listing | gen_mvbs_utils.py:57-59 | a URL is in the chained listing exactly when some directory's `*.raw` glob returns it |
| RawFiles.ListingAppend | gen_mvbs_utils.py:57-59 | listing a concatenation of directories is listing each part in turn |
| RawFiles.ListingUsesOnlyItsPatterns | gen_mvbs_utils.py:56-59 | the listing depends on the remote file system only through the patterns of the given directories |
| RawFiles.DayDirectoriesAreTheListedDays | gen_mvbs_utils.py:49-53 | there is one directory per enumerated day; the k-th directory reads back as the date of `start + k` days; no two directories are alike; there are none when `start > end` |
| RawFiles.CandidatesAreDayListings | gen_mvbs_utils.py:56-59 | a URL is among the chained listings exactly when the `*.raw` glob of some enumerated day's directory returns it |
| RawFiles.ListRawFiles | gen_mvbs_utils.py:23-63 | with `start > end` the result is empty; it succeeds exactly when every listed file name holds a timestamp; it is the in-range subsequence of the day listings, with multiplicities |
| RawFiles.ListRawFilesIsExact | gen_mvbs_utils.py:23-63 | every file returned is dated within the window, and every listed file dated within it is returned |
| RawFiles.ListRawFilesUsesOnlyDayListings | gen_mvbs_utils.py:49-59 | two file systems that agree on the enumerated days' listings give the same result |
| RawFiles.EndDayDirectorySkipped | gen_mvbs_utils.py:49-63 | when `end`'s time of day is earlier than `start`'s, `end`'s directory is not listed, though a file stamped on `end`'s day is accepted |
| RawFiles.InRangeDependsOnlyOnFileName | gen_mvbs_utils.py:15-16 | two URLs with the same file name get the same verdict |
| RawFiles.InRangeIgnoresTimeOfDay | gen_mvbs_utils.py:17-20 | moving `start` or `end` within its own day never changes the verdict |
| RawFiles.InRangeIncludesAllOfEndDay | gen_mvbs_utils.py:17-20 | a file stamped after `end` but on `end`'s day is accepted |
| RawFiles.DailyWindow | gen_mvbs_utils.py:85-93 | the UTC window is two days less one millisecond wide and contains the local day moved to UTC |
| RawFiles.TwoDayWindowDirectories | gen_mvbs_utils.py:96-100 | a window two days less one millisecond wide lists exactly the directories of its first day and the next day |
| RawFiles.TwoDayWindowCovers | gen_mvbs_utils.py:96-100 | every instant of the window's first day-length has its day's directory listed |
| RawFiles.TwoDayWindowEndsBeforeStartTime | gen_mvbs_utils.py:85-93 | unless the window starts at midnight, it ends at an earlier time of day than it starts |
| RawFiles.TwoDayWindowCandidates | gen_mvbs_utils.py:96-106 | the window's listing is the first day's `*.raw` glob followed by the next day's |
| RawFiles.ListingOfTwo | gen_mvbs_utils.py:104-106 | listing two directories is their two globs, one after the other |
| RawFiles.DailyDirectories | gen_mvbs_utils.py:85-100 | for every offset, the daily call lists exactly two directories: the window's first day and the next day |
| RawFiles.DailyListingCoversLocalDay | gen_mvbs_utils.py:85-100 | every instant of the local day, moved to UTC, falls on a listed day |
| RawFiles.DailyWindowSkipsLastDay | gen_mvbs_utils.py:85-108 | when the window does not start at midnight UTC, its last day's directory is not listed, though files stamped that day pass the filter |
| RawFiles.ListDailyRawFiles | gen_mvbs_utils.py:66-110 | it succeeds exactly when every file of the two listed days holds a timestamp; the result is the in-window subsequence of those two listings, with multiplicities |
| RawFiles.EightHoursBehind | gen_mvbs_utils.py:85-100 | at eight hours behind UTC, a local day `z` lists the directories of days `z` and `z + 1` and not that of day `z + 2` |

## Left out

- Network access: `fsspec.filesystem('https').glob` is the `glob` parameter. Transport errors and retries are not modelled.
- Fuzzy parsing: `dateutil.parser.parse(name, fuzzy=True)` is the `parse` parameter. Its grammar is not modelled. The fields it fills from today's date when a name lacks them depend on the clock. Time-zone-aware results are not modelled either: the model treats every stamp as naive.
- Sub-millisecond resolution: `datetime` counts microseconds and pandas nanoseconds; the model counts whole milliseconds. It takes the `start`, `end` and `d` a caller passes, and the timestamps parsed from file names, to be whole milliseconds. Truncating finer values can change the result. For example, with `start` 0.5 ms after midnight and `end` 0.4 ms after the next midnight, `date_range` yields one instant, while the truncated values yield two. The constants involved (23:59:59.999, one day, whole-hour offsets) are all whole milliseconds.
- DailyWindow: `utc_offset` is a float number of hours in the source. The model takes a whole number of milliseconds, because floating-point rounding of fractional offsets is not modelled.
- Range limits: `datetime` covers only years 1 to 9999, and pandas `Timestamp` covers only about 1677 to 2262. Outside those the source raises. The model computes on unbounded integers.
- Paths.FileName: `pathlib` normalises a URL before taking its name, dropping a trailing '/' and '.' parts, and it reads `https://` as a path. The model takes the text after the last '/'. That agrees for the file URLs a listing returns, which never end in '/'.
- Laziness: `list(filter(...))` stops at the first file whose name does not parse. The model returns the same error but does not model which later files were never examined.

