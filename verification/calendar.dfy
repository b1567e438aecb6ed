/**
 The proleptic Gregorian calendar on a millisecond timeline.

 An instant is an integer count of milliseconds; instant 0 is
 1970-01-01T00:00:00.000, read as UTC (the timestamps are naive). Days are
 counted the same way: day 0 is 1970-01-01. This is the calendar Python's
 `datetime` uses for `.date()`, `.year`, `.month` and `.day`.
 */
module Calendar {

  // Where a length of time multiplies or divides, it is written as a literal
  // (86_400_000 for a day) so that the arithmetic stays linear.
  const MsPerDay: int := 86_400_000

  /** A signed length of time, as `datetime.timedelta(days, hours, ...)` builds it. */
  function Duration(days: int, hours: int, minutes: int, seconds: int, millis: int): int
  {
    days * 86_400_000 + hours * 3_600_000 + minutes * 60_000 + seconds * 1000 + millis
  }

  /** The day an instant falls on (Dafny's `/` rounds down for a positive divisor). */
  function DayOf(t: int): int
  {
    t / 86_400_000
  }

  /** Milliseconds since the start of the instant's day. */
  function TimeOfDay(t: int): int
  {
    t % 86_400_000
  }

  lemma DayAndTimeOfDay(t: int)
    ensures t == DayOf(t) * 86_400_000 + TimeOfDay(t)
    ensures 0 <= TimeOfDay(t) < MsPerDay
  {
  }

  /** One day later falls on the next day, at the same time of day. */
  lemma NextDay(t: int)
    ensures DayOf(t + MsPerDay) == DayOf(t) + 1
    ensures TimeOfDay(t + MsPerDay) == TimeOfDay(t)
  {
    DayAndTimeOfDay(t);
    DayAndTimeOfDay(t + MsPerDay);
  }

  predicate IsLeapYear(y: int)
  {
    y % 4 == 0 && (y % 100 != 0 || y % 400 == 0)
  }

  function DaysInYear(y: int): int
  {
    if IsLeapYear(y) then 366 else 365
  }

  function DaysInMonth(y: int, m: int): int
    requires 1 <= m <= 12
  {
    if m == 2 then (if IsLeapYear(y) then 29 else 28)
    else if m == 4 || m == 6 || m == 9 || m == 11 then 30
    else 31
  }

  /** Days of a common year before the first of each month; entry 12 is the whole year. */
  const CommonDaysBefore: seq<int> := [0, 31, 59, 90, 120, 151, 181, 212, 243, 273, 304, 334, 365]

  /** Days of year `y` before the first of month `m`; month 13 stands for the next new year. */
  function DaysBeforeMonth(y: int, m: int): int
    requires 1 <= m <= 13
  {
    CommonDaysBefore[m - 1] + (if m > 2 && IsLeapYear(y) then 1 else 0)
  }

  lemma MonthLength(y: int, m: int)
    requires 1 <= m <= 12
    ensures DaysBeforeMonth(y, m + 1) == DaysBeforeMonth(y, m) + DaysInMonth(y, m)
    ensures DaysBeforeMonth(y, 1) == 0 && DaysBeforeMonth(y, 13) == DaysInYear(y)
  {
  }

  /** Later months start later in the year. */
  lemma {:induction false} DaysBeforeMonthMonotone(y: int, a: int, b: int)
    requires 1 <= a <= b <= 13
    ensures DaysBeforeMonth(y, a) <= DaysBeforeMonth(y, b)
    decreases b - a
  {
    if a < b {
      MonthLength(y, a);
      DaysBeforeMonthMonotone(y, a + 1, b);
    }
  }

  /** Days from 0001-01-01 to the first of January of year `y`: 365 a year plus one per leap year. */
  function DaysBeforeYear(y: int): int
  {
    var p := y - 1;
    365 * p + p / 4 - p / 100 + p / 400
  }

  /** The day number of the first of January of year `y`. */
  function YearStart(y: int): int
  {
    DaysBeforeYear(y) - DaysBeforeYear(1970)
  }

  lemma YearLength(y: int)
    ensures YearStart(y + 1) == YearStart(y) + DaysInYear(y)
  {
    assert y / 4 - (y - 1) / 4 == (if y % 4 == 0 then 1 else 0);
    assert y / 100 - (y - 1) / 100 == (if y % 100 == 0 then 1 else 0);
    assert y / 400 - (y - 1) / 400 == (if y % 400 == 0 then 1 else 0);
  }

  /** Later years start later: at least one full year after an earlier year starts. */
  lemma {:induction false} YearStartMonotone(a: int, b: int)
    requires a < b
    ensures YearStart(a + 1) <= YearStart(b)
    decreases b - a
  {
    YearLength(a);
    if a + 1 < b {
      YearStartMonotone(a + 1, b);
      YearLength(a + 1);
    }
  }

  datatype Date = Date(year: int, month: int, day: int)

  predicate Valid(d: Date)
  {
    1 <= d.month <= 12 && 1 <= d.day <= DaysInMonth(d.year, d.month)
  }

  /** The day number of a calendar date, 1970-01-01 being day 0. */
  function DayNumber(d: Date): int
    requires Valid(d)
  {
    YearStart(d.year) + DaysBeforeMonth(d.year, d.month) + d.day - 1
  }

  /** Calendar dates compared as Python compares `date` values: year, then month, then day. */
  predicate DateLeq(a: Date, b: Date)
  {
    a.year < b.year
    || (a.year == b.year && (a.month < b.month || (a.month == b.month && a.day <= b.day)))
  }

  /** The year whose days include day `z`, searched for from year `y`. */
  function YearContaining(z: int, y: int): (r: int)
    ensures YearStart(r) <= z < YearStart(r + 1)
    decreases if z < YearStart(y) then 1 else 0,
              if z < YearStart(y) then YearStart(y) - z else z - YearStart(y)
  {
    YearLength(y);
    YearLength(y - 1);
    if z < YearStart(y) then YearContaining(z, y - 1)
    else if z >= YearStart(y + 1) then YearContaining(z, y + 1)
    else y
  }

  /** The month of year `y` holding day `doy` of that year (counted from 0), searched for from month `m`. */
  function MonthFrom(y: int, doy: int, m: int): (r: int)
    requires 1 <= m <= 12
    requires DaysBeforeMonth(y, m) <= doy < DaysInYear(y)
    ensures m <= r <= 12
    ensures DaysBeforeMonth(y, r) <= doy < DaysBeforeMonth(y, r + 1)
    decreases 12 - m
  {
    MonthLength(y, m);
    if m < 12 && doy >= DaysBeforeMonth(y, m + 1) then MonthFrom(y, doy, m + 1) else m
  }

  /** The calendar date of day number `z`. */
  function CivilFromDays(z: int): (d: Date)
    ensures Valid(d)
    ensures DayNumber(d) == z
    ensures 1 <= d.month <= 12 && 1 <= d.day <= 31
  {
    var y := YearContaining(z, 1970 + z / 365);
    YearLength(y);
    MonthLength(y, 1);
    var m := MonthFrom(y, z - YearStart(y), 1);
    MonthLength(y, m);
    Date(y, m, z - YearStart(y) - DaysBeforeMonth(y, m) + 1)
  }

  /** The calendar date of an instant, as `datetime.date()` gives it. */
  function DateOf(t: int): (d: Date)
    ensures Valid(d) && DayNumber(d) == DayOf(t)
  {
    CivilFromDays(DayOf(t))
  }

  /** A valid date lies within its year, and within its month. */
  lemma DateWithinYear(d: Date)
    requires Valid(d)
    ensures YearStart(d.year) <= DayNumber(d) < YearStart(d.year + 1)
    ensures DaysBeforeMonth(d.year, d.month) <= DayNumber(d) - YearStart(d.year) < DaysBeforeMonth(d.year, d.month + 1)
  {
    YearLength(d.year);
    MonthLength(d.year, d.month);
    assert DaysBeforeMonth(d.year, d.month + 1) <= DaysInYear(d.year);
  }

  /** Converting a valid date to its day number and back gives the date again. */
  lemma CivilRoundTrip(d: Date)
    requires Valid(d)
    ensures CivilFromDays(DayNumber(d)) == d
  {
    var z := DayNumber(d);
    var e := CivilFromDays(z);
    DateWithinYear(d);
    DateWithinYear(e);
    if e.year < d.year {
      YearStartMonotone(e.year, d.year);
    } else if d.year < e.year {
      YearStartMonotone(d.year, e.year);
    }
    assert e.year == d.year;
    if e.month < d.month {
      DaysBeforeMonthMonotone(d.year, e.month + 1, d.month);
    } else if d.month < e.month {
      DaysBeforeMonthMonotone(d.year, d.month + 1, e.month);
    }
    assert e.month == d.month;
  }

  /** Comparing valid dates as Python does agrees with comparing their day numbers. */
  lemma DateOrderIsDayNumberOrder(a: Date, b: Date)
    requires Valid(a) && Valid(b)
    ensures DateLeq(a, b) <==> DayNumber(a) <= DayNumber(b)
  {
    DateWithinYear(a);
    DateWithinYear(b);
    if a.year < b.year {
      YearStartMonotone(a.year, b.year);
    } else if b.year < a.year {
      YearStartMonotone(b.year, a.year);
    } else if a.month < b.month {
      DaysBeforeMonthMonotone(a.year, a.month + 1, b.month);
    } else if b.month < a.month {
      DaysBeforeMonthMonotone(a.year, b.month + 1, a.month);
    }
  }

  /** `s.date() <= t.date()` holds exactly when `s` falls on the same day as `t` or an earlier one. */
  lemma DateOrderIsDayOrder(s: int, t: int)
    ensures DateLeq(DateOf(s), DateOf(t)) <==> DayOf(s) <= DayOf(t)
  {
    DateOrderIsDayNumberOrder(DateOf(s), DateOf(t));
  }
}
