/**
 Timestamps and calendar dates as Python's naive `datetime` sees them: the
 proleptic Gregorian calendar, day 0 being 0001-01-01 (a Monday), and the
 `strftime('%Y-%m-%d')` rendering of a date.
 */
module Dates {
  import opened Options
  import opened Strings

  /** A naive local timestamp: whole seconds since 0001-01-01T00:00:00. */
  type Instant = nat

  const SecondsPerHour: nat := 3600
  const SecondsPerDay: nat := 86400

  /** The calendar day an instant falls on, counted from 0001-01-01. */
  function DayNumber(t: Instant): nat {
    t / SecondsPerDay
  }

  /** The start of the day of `t`. */
  function Midnight(t: Instant): (r: Instant)
    ensures r <= t < r + SecondsPerDay
    ensures r % SecondsPerDay == 0
    ensures DayNumber(r) == DayNumber(t)
  {
    DayNumber(t) * SecondsPerDay
  }

  /** Hour `h` sharp on the day of `t`. */
  function AtHour(t: Instant, h: nat): (r: Instant)
    requires h < 24
    ensures DayNumber(r) == DayNumber(t)
    ensures r % SecondsPerDay == h * SecondsPerHour
  {
    Midnight(t) + h * SecondsPerHour
  }

  // ---------------------------------------------------------------------------
  // Calendar

  datatype Date = Date(year: int, month: int, day: int)

  predicate IsLeapYear(y: int) {
    y % 4 == 0 && (y % 100 != 0 || y % 400 == 0)
  }

  function DaysInYear(y: int): nat {
    if IsLeapYear(y) then 366 else 365
  }

  /** `calendar.monthrange(y, m)[1]` */
  function DaysInMonth(y: int, m: int): nat
    requires 1 <= m <= 12
  {
    if m == 2 then (if IsLeapYear(y) then 29 else 28)
    else if m == 4 || m == 6 || m == 9 || m == 11 then 30
    else 31
  }

  /** Days of year `y` before the first of month `m`. */
  function DaysBeforeMonth(y: int, m: int): nat
    requires 1 <= m <= 12
  {
    [0, 31, 59, 90, 120, 151, 181, 212, 243, 273, 304, 334][m - 1]
    + (if m > 2 && IsLeapYear(y) then 1 else 0)
  }

  /** Days from 0001-01-01 to the first of January of year `y`. */
  function DaysBeforeYear(y: int): nat
    requires y >= 1
    decreases y
  {
    if y == 1 then 0 else DaysBeforeYear(y - 1) + DaysInYear(y - 1)
  }

  predicate ValidDate(d: Date) {
    && 1 <= d.year
    && 1 <= d.month <= 12
    && 1 <= d.day <= DaysInMonth(d.year, d.month)
  }

  /** Days since 0001-01-01, i.e. Python's `d.toordinal() - 1`. */
  function DayOfDate(d: Date): nat
    requires ValidDate(d)
  {
    DaysBeforeYear(d.year) + DaysBeforeMonth(d.year, d.month) + d.day - 1
  }

  lemma MonthsTileTheYear(y: int, m: int)
    requires 1 <= m <= 12
    ensures m < 12 ==> DaysBeforeMonth(y, m + 1) == DaysBeforeMonth(y, m) + DaysInMonth(y, m)
    ensures DaysBeforeMonth(y, m) + DaysInMonth(y, m) <= DaysInYear(y)
    ensures m == 12 ==> DaysBeforeMonth(y, m) + DaysInMonth(y, m) == DaysInYear(y)
  {
  }

  lemma {:induction false} DaysBeforeMonthMonotone(y: int, a: int, b: int)
    requires 1 <= a < b <= 12
    ensures DaysBeforeMonth(y, a) + DaysInMonth(y, a) <= DaysBeforeMonth(y, b)
    decreases b - a
  {
    MonthsTileTheYear(y, a);
    if a + 1 < b {
      DaysBeforeMonthMonotone(y, a + 1, b);
    }
  }

  lemma {:induction false} DaysBeforeYearMonotone(a: int, b: int)
    requires 1 <= a < b
    ensures DaysBeforeYear(a) + DaysInYear(a) <= DaysBeforeYear(b)
    decreases b - a
  {
    if a + 1 < b {
      DaysBeforeYearMonotone(a + 1, b);
    }
  }

  /** The date `n` days after the first of month `m` of year `y`. */
  function MonthWalk(n: nat, y: int, m: int): (d: Date)
    requires y >= 1 && 1 <= m <= 12
    requires DaysBeforeMonth(y, m) + n < DaysInYear(y)
    ensures ValidDate(d) && d.year == y
    ensures DayOfDate(d) == DaysBeforeYear(y) + DaysBeforeMonth(y, m) + n
    decreases 12 - m
  {
    MonthsTileTheYear(y, m);
    if n < DaysInMonth(y, m) then Date(y, m, n + 1)
    else MonthWalk(n - DaysInMonth(y, m), y, m + 1)
  }

  /** The date `n` days after the first of January of year `y`. */
  function YearWalk(n: nat, y: int): (d: Date)
    requires y >= 1
    ensures ValidDate(d)
    ensures DayOfDate(d) == DaysBeforeYear(y) + n
    decreases n
  {
    if n < DaysInYear(y) then MonthWalk(n, y, 1)
    else YearWalk(n - DaysInYear(y), y + 1)
  }

  /** The date `n` days after 0001-01-01, i.e. Python's `date.fromordinal(n + 1)`. */
  function DateOfDay(n: nat): (d: Date)
    ensures ValidDate(d)
    ensures DayOfDate(d) == n
  {
    YearWalk(n, 1)
  }

  lemma {:induction false} MonthWalkInverse(d: Date, m: int)
    requires ValidDate(d) && 1 <= m <= d.month
    ensures DaysBeforeMonth(d.year, m) <= DaysBeforeMonth(d.year, d.month)
    ensures DaysBeforeMonth(d.year, d.month) + d.day - 1 < DaysInYear(d.year)
    ensures MonthWalk(DaysBeforeMonth(d.year, d.month) - DaysBeforeMonth(d.year, m) + d.day - 1, d.year, m) == d
    decreases d.month - m
  {
    MonthsTileTheYear(d.year, d.month);
    if m < d.month {
      DaysBeforeMonthMonotone(d.year, m, d.month);
      MonthsTileTheYear(d.year, m);
      MonthWalkInverse(d, m + 1);
    }
  }

  lemma {:induction false} YearWalkInverse(d: Date, y: int)
    requires ValidDate(d) && 1 <= y <= d.year
    ensures DaysBeforeYear(y) <= DayOfDate(d)
    ensures YearWalk(DayOfDate(d) - DaysBeforeYear(y), y) == d
    decreases d.year - y
  {
    if y == d.year {
      MonthWalkInverse(d, 1);
      YearWalkWithinYear(DayOfDate(d) - DaysBeforeYear(y), y);
    } else {
      DaysBeforeYearMonotone(y, d.year);
      YearWalkInverse(d, y + 1);
      YearWalkPastYear(DayOfDate(d) - DaysBeforeYear(y), y);
    }
  }

  lemma YearWalkWithinYear(n: nat, y: int)
    requires y >= 1 && n < DaysInYear(y)
    ensures YearWalk(n, y) == MonthWalk(n, y, 1)
  {
  }

  lemma YearWalkPastYear(n: nat, y: int)
    requires y >= 1 && n >= DaysInYear(y)
    ensures n - DaysInYear(y) == n + DaysBeforeYear(y) - DaysBeforeYear(y + 1)
    ensures YearWalk(n, y) == YearWalk(n - DaysInYear(y), y + 1)
  {
  }

  /** Day numbering is a bijection: counting a date's days and walking them back gives the date. */
  lemma DateOfDayOfDate(d: Date)
    requires ValidDate(d)
    ensures DateOfDay(DayOfDate(d)) == d
  {
    YearWalkInverse(d, 1);
  }

  /** The calendar date of an instant (`t.date()`). */
  function DateOf(t: Instant): (d: Date)
    ensures ValidDate(d)
  {
    DateOfDay(DayNumber(t))
  }

  /** `d.weekday()`: 0 is Monday; 0001-01-01 was a Monday. */
  function Weekday(d: Date): (w: nat)
    requires ValidDate(d)
    ensures w < 7
  {
    DayOfDate(d) % 7
  }

  // ---------------------------------------------------------------------------
  // strftime('%Y-%m-%d')

  /** `%Y`: four digits, zero padded. */
  function YearString(y: nat): (r: string)
    ensures |r| >= 1 && AllDigits(r)
  {
    if y < 10000 then PadDigits(y, 4) else NatToString(y)
  }

  /** `d.strftime('%Y-%m-%d')` */
  function DateString(d: Date): (r: string)
    requires ValidDate(d)
    ensures |r| >= 7
  {
    YearString(d.year) + "-" + PadDigits(d.month, 2) + "-" + PadDigits(d.day, 2)
  }

  /** Reads a `YYYY-MM-DD` string back into its year, month and day numbers. */
  function ParseDateString(s: string): Option<Date> {
    if |s| >= 7 && s[|s| - 6] == '-' && s[|s| - 3] == '-'
       && AllDigits(s[..|s| - 6]) && AllDigits(s[|s| - 5..|s| - 3]) && AllDigits(s[|s| - 2..])
    then Some(Date(DigitsValue(s[..|s| - 6]), DigitsValue(s[|s| - 5..|s| - 3]), DigitsValue(s[|s| - 2..])))
    else None
  }

  /** Whether `s` is exactly the `%Y-%m-%d` rendering of a calendar date, and not merely readable as one. */
  predicate IsDateString(s: string) {
    var d := ParseDateString(s);
    d.Some? && ValidDate(d.value) && s == DateString(d.value)
  }

  lemma YearStringValue(y: nat)
    ensures DigitsValue(YearString(y)) == y
  {
    if y < 10000 {
      PadDigitsValue(y, 4);
    } else {
      NatToStringValue(y);
    }
  }

  /** The date string of a date reads back as that date. */
  lemma DateStringRoundTrip(d: Date)
    requires ValidDate(d)
    ensures ParseDateString(DateString(d)) == Some(d)
  {
    var ys, ms, ds := YearString(d.year), PadDigits(d.month, 2), PadDigits(d.day, 2);
    var s := DateString(d);
    assert s == ys + "-" + ms + "-" + ds;
    assert s[..|s| - 6] == ys;
    assert s[|s| - 5..|s| - 3] == ms;
    assert s[|s| - 2..] == ds;
    YearStringValue(d.year);
    PadDigitsValue(d.month, 2);
    PadDigitsValue(d.day, 2);
  }

  /** The date string of a date is in the canonical form, and names that date. */
  lemma DateStringCanonical(d: Date)
    requires ValidDate(d)
    ensures IsDateString(DateString(d)) && ParseDateString(DateString(d)) == Some(d)
  {
    DateStringRoundTrip(d);
  }

  /** Distinct dates have distinct date strings. */
  lemma DateStringInjective(a: Date, b: Date)
    requires ValidDate(a) && ValidDate(b)
    requires DateString(a) == DateString(b)
    ensures a == b
  {
    DateStringRoundTrip(a);
    DateStringRoundTrip(b);
  }

  /** The date string never coincides with the "Unknown" placeholder. */
  lemma DateStringIsNotUnknown(d: Date)
    requires ValidDate(d)
    ensures DateString(d) != "Unknown"
  {
    DateStringRoundTrip(d);
    assert ParseDateString("Unknown") == None by {
      assert "Unknown"[1] == 'n';
    }
  }
}
