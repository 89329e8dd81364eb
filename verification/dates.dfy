/** Calendar days and the day arithmetic a JavaScript `Date` performs when it
    is built from (year, month, day) components and compared by `getTime()`
    at local midnight. */
module Dates {
  import opened Arith

  /** A calendar day as the numeric year, month and day components of a
      `YYYY-MM-DD` string; month 1 is January. The components are not
      required to be in range: the day arithmetic below normalises them. */
  datatype Date = Date(year: int, month: int, day: int)

  predicate IsLeapYear(y: int) {
    y % 4 == 0 && (y % 100 != 0 || y % 400 == 0)
  }

  function DaysInYear(y: int): int {
    if IsLeapYear(y) then 366 else 365
  }

  function DaysInMonth(y: int, m: int): int
    requires 1 <= m <= 12
  {
    if m == 2 then (if IsLeapYear(y) then 29 else 28)
    else if m == 4 || m == 6 || m == 9 || m == 11 then 30
    else 31
  }

  /** A date whose month and day name a day that exists in the proleptic
      Gregorian calendar. */
  predicate ValidDate(d: Date) {
    1 <= d.month <= 12 && 1 <= d.day <= DaysInMonth(d.year, d.month)
  }

  /** Days of year `y` that precede the first of month `m`. */
  function DaysBeforeMonth(y: int, m: int): (r: int)
    requires 1 <= m <= 12
    ensures 0 <= r
  {
    if m == 1 then 0 else DaysBeforeMonth(y, m - 1) + DaysInMonth(y, m - 1)
  }

  /** Days from 1 January of year 1 to 1 January of year `y` (negative before
      year 1). Dafny's `/` rounds down for positive divisors, so the leap-day
      corrections are floor divisions for every year. */
  function DaysBeforeYear(y: int): int {
    var p := y - 1;
    365 * p + p / 4 - p / 100 + p / 400
  }

  /** The day number of the given components, counted from 1 January of year
      1. Months outside 1..12 carry into the year and days outside the month
      carry into the neighbouring months, as ECMAScript's MakeDay does
      (month 13 is January of the next year, day 0 the last day of the
      previous month). */
  function DayNumber(year: int, month: int, day: int): (n: int)
    ensures 1 <= month <= 12 && 1 <= day <= DaysInMonth(year, month) ==>
      DaysBeforeYear(year) <= n < DaysBeforeYear(year) + DaysInYear(year)
  {
    var y := year + (month - 1) / 12;
    var m := (month - 1) % 12 + 1;
    var n := DaysBeforeYear(y) + DaysBeforeMonth(y, m) + day - 1;
    if 1 <= month <= 12 then
      NoCarry(year, month);
      MonthsFitInYear(year, month);
      n
    else
      n
  }

  /** A month in 1..12 carries nothing into the year. */
  lemma NoCarry(year: int, month: int)
    requires 1 <= month <= 12
    ensures year + (month - 1) / 12 == year && (month - 1) % 12 + 1 == month
  {
  }

  /** The day number of a date whose year is taken as it is, as for the
      clock's own reading of today. */
  function DateNumber(d: Date): int {
    DayNumber(d.year, d.month, d.day)
  }

  /** The day number of 1 January 1970, where ECMAScript time values start. */
  const EpochDay := 719162

  /** ECMAScript's TimeClip turns a time value more than 8.64e15 ms (10^8
      days) away from the epoch into NaN, so a `Date` built for a day further
      out than that is invalid. */
  const MaxTimeDays := 100_000_000

  /** The day numbers a valid `Date` can stand for: from -271821-04-20 to
      275760-09-13. */
  predicate InTimeRange(n: int) {
    -MaxTimeDays <= n - EpochDay <= MaxTimeDays
  }

  /** Calendar order: earlier year, or same year and earlier month, or same
      month and earlier day. */
  predicate Before(a: Date, b: Date) {
    || a.year < b.year
    || (a.year == b.year && a.month < b.month)
    || (a.year == b.year && a.month == b.month && a.day < b.day)
  }

  /** One year's worth of days separates consecutive new years. */
  lemma YearStep(y: int)
    ensures DaysBeforeYear(y + 1) == DaysBeforeYear(y) + DaysInYear(y)
  {
    DivStep(y, 4);
    DivStep(y, 100);
    DivStep(y, 400);
    if y % 400 == 0 {
      MultipleOfFactor(y, 100, 4);
    }
    if y % 100 == 0 {
      MultipleOfFactor(y, 4, 25);
    }
  }

  /** A whole year `a` fits before the start of any later year `b`. */
  lemma {:induction false} YearsOrdered(a: int, b: int)
    requires a < b
    ensures DaysBeforeYear(a) + DaysInYear(a) <= DaysBeforeYear(b)
    decreases b - a
  {
    YearStep(a);
    if a + 1 < b {
      YearsOrdered(a + 1, b);
    }
  }

  /** A whole month `m1` fits before the start of any later month `m2` of the
      same year. */
  lemma {:induction false} MonthsOrdered(y: int, m1: int, m2: int)
    requires 1 <= m1 < m2 <= 12
    ensures DaysBeforeMonth(y, m1) + DaysInMonth(y, m1) <= DaysBeforeMonth(y, m2)
    decreases m2
  {
    if m1 + 1 < m2 {
      MonthsOrdered(y, m1, m2 - 1);
    }
  }

  /** Every month ends within its year. */
  lemma MonthsFitInYear(y: int, m: int)
    requires 1 <= m <= 12
    ensures DaysBeforeMonth(y, m) + DaysInMonth(y, m) <= DaysInYear(y)
  {
    if m < 12 {
      MonthsOrdered(y, m, 12);
    }
    LastMonthEndsYear(y);
  }

  /** The carries of MakeDay: twelve months more is a year later, a day more
      is the next day number, and the day after a month's last day is the
      first of the next month (the first of January after December). */
  lemma MakeDayCarries(y: int, m: int, d: int)
    ensures DayNumber(y, m + 12, d) == DayNumber(y + 1, m, d)
    ensures DayNumber(y, m, d + 1) == DayNumber(y, m, d) + 1
    ensures 1 <= m <= 12 ==> DayNumber(y, m, DaysInMonth(y, m) + 1) == DayNumber(y, m + 1, 1)
  {
    MonthCarry(y, m, d);
    if 1 <= m <= 12 {
      MonthEndCarry(y, m);
    }
  }

  /** Twelve months more is a year later. */
  lemma MonthCarry(y: int, m: int, d: int)
    ensures DayNumber(y, m + 12, d) == DayNumber(y + 1, m, d)
  {
    assert (m + 12 - 1) / 12 == (m - 1) / 12 + 1;
    assert (m + 12 - 1) % 12 == (m - 1) % 12;
  }

  /** The day after a month's last day is the first of the next month. */
  lemma MonthEndCarry(y: int, m: int)
    requires 1 <= m <= 12
    ensures DayNumber(y, m, DaysInMonth(y, m) + 1) == DayNumber(y, m + 1, 1)
  {
    if m == 12 {
      LastMonthEndsYear(y);
      YearStep(y);
    } else {
      assert (m + 1 - 1) / 12 == 0 && (m - 1) / 12 == 0;
    }
  }

  /** December's last day closes the year. */
  lemma LastMonthEndsYear(y: int)
    ensures DaysBeforeMonth(y, 12) + DaysInMonth(y, 12) == DaysInYear(y)
  {
    var leap := if IsLeapYear(y) then 1 else 0;
    assert DaysBeforeMonth(y, 2) == 31;
    assert DaysBeforeMonth(y, 3) == 59 + leap;
    assert DaysBeforeMonth(y, 4) == 90 + leap;
    assert DaysBeforeMonth(y, 5) == 120 + leap;
    assert DaysBeforeMonth(y, 6) == 151 + leap;
    assert DaysBeforeMonth(y, 7) == 181 + leap;
    assert DaysBeforeMonth(y, 8) == 212 + leap;
    assert DaysBeforeMonth(y, 9) == 243 + leap;
    assert DaysBeforeMonth(y, 10) == 273 + leap;
    assert DaysBeforeMonth(y, 11) == 304 + leap;
    assert DaysBeforeMonth(y, 12) == 334 + leap;
  }

  /** For a valid date the normalisation in DayNumber is the identity. */
  lemma ValidDateNumber(d: Date)
    requires ValidDate(d)
    ensures DateNumber(d) == DaysBeforeYear(d.year) + DaysBeforeMonth(d.year, d.month) + d.day - 1
    ensures DaysBeforeYear(d.year) <= DateNumber(d) < DaysBeforeYear(d.year) + DaysInYear(d.year)
  {
    MonthsFitInYear(d.year, d.month);
  }

  /** Every valid date from year 1 to year 275759 lies in the range of
      ECMAScript time values. */
  lemma SupportedYears(d: Date)
    requires ValidDate(d) && 1 <= d.year <= 275759
    ensures InTimeRange(DateNumber(d))
  {
    ValidDateNumber(d);
    YearsOrdered(d.year, 275760);
    if 1 < d.year {
      YearsOrdered(1, d.year);
    }
    assert DaysBeforeYear(275760) - EpochDay == 99999744;
  }

  /** Calendar order implies day-number order. */
  lemma BeforeIsEarlier(a: Date, b: Date)
    requires ValidDate(a) && ValidDate(b) && Before(a, b)
    ensures DateNumber(a) < DateNumber(b)
  {
    ValidDateNumber(a);
    ValidDateNumber(b);
    if a.year < b.year {
      YearsOrdered(a.year, b.year);
    } else if a.month < b.month {
      MonthsOrdered(a.year, a.month, b.month);
    }
  }

  /** On valid dates, comparing day numbers (what `getTime()` at midnight
      compares) is the same as comparing the dates on the calendar. */
  lemma DayOrder(a: Date, b: Date)
    requires ValidDate(a) && ValidDate(b)
    ensures DateNumber(a) < DateNumber(b) <==> Before(a, b)
    ensures DateNumber(a) == DateNumber(b) <==> a == b
  {
    if Before(a, b) {
      BeforeIsEarlier(a, b);
    } else if Before(b, a) {
      BeforeIsEarlier(b, a);
    }
  }
}
