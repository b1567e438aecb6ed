/**
 The two path manipulations of the file locator: the file name at the end of
 a URL (`pathlib.Path(url).name`) and the per-day directory URL
 `base/YYYY/MM/DD`, with a reader that recovers the date from it.
 */
module Paths {
  import opened Outcomes
  import opened Calendar
  import opened Decimal

  /** The index of the last '/' in `path[..n]`, or -1 when there is none. */
  function LastSlashBefore(path: string, n: nat): (i: int)
    requires n <= |path|
    ensures -1 <= i < n
    ensures i >= 0 ==> path[i] == '/'
    ensures forall j :: i < j < n ==> path[j] != '/'
  {
    if n == 0 then -1
    else if path[n - 1] == '/' then n - 1
    else LastSlashBefore(path, n - 1)
  }

  /** The text after the last '/' of a path; the whole path when it has none. */
  function FileName(path: string): (name: string)
    ensures '/' !in name
    ensures |name| <= |path| && path[|path| - |name|..] == name
    ensures |name| < |path| ==> path[|path| - |name| - 1] == '/'
  {
    path[LastSlashBefore(path, |path|) + 1..]
  }

  /** The name of an entry listed in a directory is the entry's own text. */
  lemma FileNameOfEntry(dir: string, entry: string)
    requires '/' !in entry
    ensures FileName(dir + "/" + entry) == entry
  {
    var path := dir + "/" + entry;
    var name := FileName(path);
    assert path[|dir|] == '/';
    assert |name| >= |entry|;
    assert |name| == |entry|;
    assert path[|path| - |entry|..] == entry;
  }

  /** The glob pattern appended to a day directory: every `.raw` file in it. */
  const RawPattern: string := "/*.raw"

  /** `f"{base}/{year}/{month:02d}/{day:02d}"`: a URL under `base` that names the date. */
  function DayDirectory(base: string, date: Date): (url: string)
    requires Valid(date)
    ensures ParseDayDirectory(base, url) == Some(date)
  {
    var y := IntToString(date.year);
    var m := Pad2(date.month);
    var d := Pad2(date.day);
    ParseDirectoryParts(base, y, m, d);
    (base + "/") + y + "/" + m + "/" + d
  }

  /** The directory holding the files of the day an instant falls on. */
  function DayUrl(base: string, t: int): string
  {
    DayDirectory(base, DateOf(t))
  }

  /** Reads the date back out of a day directory URL under `base`. */
  function ParseDayDirectory(base: string, url: string): Option<Date>
  {
    var n := |url|;
    if n < |base| + 8 || url[..|base| + 1] != base + "/" || url[n - 6] != '/' || url[n - 3] != '/' then None
    else
      var year := url[|base| + 1 .. n - 6];
      var month := url[n - 5 .. n - 3];
      var day := url[n - 2..];
      if IsIntText(year) && AllDigits(month) && AllDigits(day)
      then Some(Date(ParseInt(year), ParseNat(month), ParseNat(day)))
      else None
  }

  /** A `base/year/month/day` path with well-formed parts reads back as the date the parts spell. */
  lemma ParseDirectoryParts(base: string, y: string, m: string, d: string)
    requires IsIntText(y) && AllDigits(m) && AllDigits(d) && |m| == 2 && |d| == 2
    ensures ParseDayDirectory(base, (base + "/") + y + "/" + m + "/" + d)
            == Some(Date(ParseInt(y), ParseNat(m), ParseNat(d)))
  {
    DirectoryParts(base + "/", y, m, d);
    ParseLaidOutDirectory(base, (base + "/") + y + "/" + m + "/" + d, y, m, d);
  }

  /** The reader, applied to a URL whose parts sit where a `base/year/month/day` path puts them. */
  lemma ParseLaidOutDirectory(base: string, url: string, y: string, m: string, d: string)
    requires IsIntText(y) && AllDigits(m) && AllDigits(d) && |m| == 2 && |d| == 2
    requires |url| == |base + "/"| + |y| + 6
    requires url[..|base + "/"|] == base + "/"
    requires url[|base + "/"| .. |url| - 6] == y
    requires url[|url| - 6] == '/' && url[|url| - 3] == '/'
    requires url[|url| - 5 .. |url| - 3] == m && url[|url| - 2..] == d
    ensures ParseDayDirectory(base, url) == Some(Date(ParseInt(y), ParseNat(m), ParseNat(d)))
  {
    assert |base + "/"| == |base| + 1;
  }

  /** Where the parts of a `prefix/year/month/day` path lie, for a two-character month and day. */
  lemma DirectoryParts(prefix: string, y: string, m: string, d: string)
    requires |m| == 2 && |d| == 2
    ensures var url := prefix + y + "/" + m + "/" + d;
            var n := |url|;
            && n == |prefix| + |y| + 6
            && url[..|prefix|] == prefix
            && url[|prefix| .. n - 6] == y
            && url[n - 6] == '/' && url[n - 3] == '/'
            && url[n - 5 .. n - 3] == m
            && url[n - 2..] == d
  {
    var url := prefix + y + "/" + m + "/" + d;
    var n := |url|;
    assert url[..|prefix|] == prefix;
    assert url[|prefix| .. n - 6] == y;
    assert url[n - 5 .. n - 3] == m;
    assert url[n - 2..] == d;
  }

  lemma DayUrlNamesDate(base: string, t: int)
    ensures ParseDayDirectory(base, DayUrl(base, t)) == Some(DateOf(t))
  {
  }

  /** Two instants share a day directory exactly when they fall on the same day. */
  lemma DayUrlInjective(base: string, s: int, t: int)
    ensures DayUrl(base, s) == DayUrl(base, t) <==> DayOf(s) == DayOf(t)
  {
    DayUrlNamesDate(base, s);
    DayUrlNamesDate(base, t);
  }
}
