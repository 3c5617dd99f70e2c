/**
  Civil calendar arithmetic over YYYY-MM-DD strings (packages/shared/src/moscow-calendar.ts).

  `Date.UTC` and the day, year, month and weekday of a time value follow sections 20.3.1.2 to
  20.3.1.15 and 20.3.3.4 of ECMA-262, 6th edition.  A zone is a constant offset from UTC in
  milliseconds; `new Date()` is a parameter.
 */
module Calendar {
  const MS_PER_DAY := 86_400_000
  const NOON := 43_200_000
  const MAX_TIME := 8_640_000_000_000_000

  /** Year, month in 1..12 and day of month of a proleptic Gregorian date. */
  datatype Civil = Civil(year: int, month: int, day: int) {
    predicate Valid() {
      1 <= month <= 12 && 1 <= day <= MonthLength(month - 1, IsLeap(year))
    }
  }

  // ----- Days, years and months (ECMA-262) -----

  predicate IsLeap(y: int) {
    y % 4 == 0 && (y % 100 != 0 || y % 400 == 0)
  }

  function DayFromYear(y: int): int {
    365 * (y - 1970) + (y - 1969) / 4 - (y - 1901) / 100 + (y - 1601) / 400
  }

  /** Days of the year before month `m` (0 = January); month 12 is the whole year. */
  function MonthStart(m: int, leap: bool): int
    requires 0 <= m <= 12
  {
    [0, 31, 59, 90, 120, 151, 181, 212, 243, 273, 304, 334, 365][m] + (if leap && m >= 2 then 1 else 0)
  }

  function MonthLength(m: int, leap: bool): int
    requires 0 <= m < 12
  {
    MonthStart(m + 1, leap) - MonthStart(m, leap)
  }

  /** MakeDay: months and days outside their range carry over. */
  function MakeDay(year: int, month: int, date: int): int {
    var y := year + month / 12;
    DayFromYear(y) + MonthStart(month % 12, IsLeap(y)) + date - 1
  }

  lemma FourYears(y: int)
    ensures (y - 1968) / 4 - (y - 1969) / 4 == if y % 4 == 0 then 1 else 0
  {
    var q, r := y / 4, y % 4;
    assert y - 1968 == 4 * (q - 492) + r;
  }

  lemma Century(y: int)
    ensures (y - 1900) / 100 - (y - 1901) / 100 == if y % 100 == 0 then 1 else 0
  {
    var q, r := y / 100, y % 100;
    assert y - 1900 == 100 * (q - 19) + r;
  }

  lemma FourCenturies(y: int)
    ensures (y - 1600) / 400 - (y - 1601) / 400 == if y % 400 == 0 then 1 else 0
  {
    var q, r := y / 400, y % 400;
    assert y - 1600 == 400 * (q - 4) + r;
  }

  lemma HundredDivides(y: int, k: int)
    requires y == 400 * k
    ensures y % 100 == 0
  {
    assert y == 100 * (4 * k);
  }

  lemma FourDivides(y: int, k: int)
    requires y == 100 * k
    ensures y % 4 == 0
  {
    assert y == 4 * (25 * k);
  }

  lemma YearLength(y: int)
    ensures DayFromYear(y + 1) - DayFromYear(y) == if IsLeap(y) then 366 else 365
  {
    FourYears(y);
    Century(y);
    FourCenturies(y);
    if y % 400 == 0 {
      HundredDivides(y, y / 400);
    }
    if y % 100 == 0 {
      FourDivides(y, y / 100);
    }
  }

  lemma {:induction false} YearsIncrease(y: int, z: int)
    requires y <= z
    ensures DayFromYear(z) - DayFromYear(y) >= 365 * (z - y)
    decreases z - y
  {
    if y < z {
      YearLength(z - 1);
      YearsIncrease(y, z - 1);
    }
  }

  /** The largest year at or after `y` that starts no later than `day`. */
  function LastYearFrom(day: int, y: int): (r: int)
    requires DayFromYear(y) <= day
    ensures DayFromYear(r) <= day < DayFromYear(r + 1)
    decreases day - DayFromYear(y)
  {
    YearLength(y);
    if day < DayFromYear(y + 1) then y else LastYearFrom(day, y + 1)
  }

  /** YearFromTime: "the largest integer y such that TimeFromYear(y) <= t". */
  function YearFromDay(day: int): (y: int)
    ensures DayFromYear(y) <= day < DayFromYear(y + 1)
  {
    LastYearFrom(day, 1970 + (if day >= 0 then day / 366 else day / 365 - 1))
  }

  function MonthFrom(dayInYear: int, leap: bool, m: int): (r: int)
    requires 0 <= m < 12 && MonthStart(m, leap) <= dayInYear < MonthStart(12, leap)
    ensures 0 <= r < 12 && MonthStart(r, leap) <= dayInYear < MonthStart(r + 1, leap)
    decreases 12 - m
  {
    if dayInYear < MonthStart(m + 1, leap) then m else MonthFrom(dayInYear, leap, m + 1)
  }

  /** The day number of a date whose month is already in range. */
  function DayOf(c: Civil): int
    requires 1 <= c.month <= 12
  {
    DayFromYear(c.year) + MonthStart(c.month - 1, IsLeap(c.year)) + c.day - 1
  }

  function CivilFromDay(day: int): (c: Civil)
    ensures c.Valid() && DayOf(c) == day
  {
    var y := YearFromDay(day);
    YearLength(y);
    var m := MonthFrom(day - DayFromYear(y), IsLeap(y), 0);
    Civil(y, m + 1, day - DayFromYear(y) - MonthStart(m, IsLeap(y)) + 1)
  }

  function WeekDay(day: int): int {
    (day + 4) % 7
  }

  lemma MakeDayOfCivil(c: Civil, delta: int)
    requires 1 <= c.month <= 12
    ensures MakeDay(c.year, c.month - 1, c.day + delta) == DayOf(c) + delta
  {
    assert (c.month - 1) / 12 == 0 && (c.month - 1) % 12 == c.month - 1;
  }

  lemma MonthsIncrease(m: int, n: int, leap: bool)
    requires 0 <= m < n <= 12
    ensures MonthStart(m + 1, leap) <= MonthStart(n, leap)
  {
  }

  lemma DayBounds(c: Civil)
    requires c.Valid()
    ensures DayFromYear(c.year) <= DayOf(c) < DayFromYear(c.year + 1)
  {
    YearLength(c.year);
    MonthsIncrease(c.month - 1, 12, IsLeap(c.year));
  }

  /** Two valid dates with one day number are the same date. */
  lemma CivilUnique(a: Civil, b: Civil)
    requires a.Valid() && b.Valid() && DayOf(a) == DayOf(b)
    ensures a == b
  {
    hide DayFromYear, IsLeap;
    DayBounds(a);
    DayBounds(b);
    if a.year < b.year {
      YearsIncrease(a.year + 1, b.year);
    } else if b.year < a.year {
      YearsIncrease(b.year + 1, a.year);
    } else if a.month < b.month {
      MonthsIncrease(a.month - 1, b.month - 1, IsLeap(a.year));
    } else if b.month < a.month {
      MonthsIncrease(b.month - 1, a.month - 1, IsLeap(a.year));
    }
  }

  /** Valid dates and day numbers are in bijection: the date of a date's day number is that date. */
  lemma CivilOfDayOfCivil(c: Civil)
    requires c.Valid()
    ensures CivilFromDay(MakeDay(c.year, c.month - 1, c.day)) == c
  {
    var day := MakeDay(c.year, c.month - 1, c.day);
    assert day == DayOf(c) by {
      MakeDayOfCivil(c, 0);
    }
    CivilUnique(CivilFromDay(day), c);
  }

  /** The other half: the day number of a day's date is that day. */
  lemma DayOfCivilOfDay(day: int)
    ensures var c := CivilFromDay(day); MakeDay(c.year, c.month - 1, c.day) == day
  {
    var c := CivilFromDay(day);
    MakeDayOfCivil(c, 0);
  }

  // ----- The calendar on the wall -----

  /** Thirty days have September, April, June and November. */
  function DaysIn(month: int, year: int): int {
    if month == 2 then (if year % 400 == 0 || (year % 4 == 0 && year % 100 != 0) then 29 else 28)
    else if month in {4, 6, 9, 11} then 30
    else 31
  }

  function NextDate(c: Civil): Civil {
    if c.day < DaysIn(c.month, c.year) then Civil(c.year, c.month, c.day + 1)
    else if c.month < 12 then Civil(c.year, c.month + 1, 1)
    else Civil(c.year + 1, 1, 1)
  }

  lemma DaysInIs(month: int, year: int)
    requires 1 <= month <= 12
    ensures DaysIn(month, year) == MonthLength(month - 1, IsLeap(year))
  {
    var leap := IsLeap(year);
    assert MonthLength(0, leap) == 31 && MonthLength(1, leap) == (if leap then 29 else 28) && MonthLength(2, leap) == 31;
    assert MonthLength(3, leap) == 30 && MonthLength(4, leap) == 31 && MonthLength(5, leap) == 30;
    assert MonthLength(6, leap) == 31 && MonthLength(7, leap) == 31 && MonthLength(8, leap) == 30;
    assert MonthLength(9, leap) == 31 && MonthLength(10, leap) == 30 && MonthLength(11, leap) == 31;
    hide MonthLength, IsLeap;
  }

  lemma NextDateIsNextDay(c: Civil)
    requires c.Valid()
    ensures NextDate(c).Valid() && DayOf(NextDate(c)) == DayOf(c) + 1
  {
    YearLength(c.year);
    DaysInIs(c.month, c.year);
    assert MonthStart(0, IsLeap(c.year)) == 0 && MonthStart(0, IsLeap(c.year + 1)) == 0;
    assert MonthStart(12, IsLeap(c.year)) == DayFromYear(c.year + 1) - DayFromYear(c.year);
    assert MonthLength(0, IsLeap(c.year)) == 31 && MonthLength(0, IsLeap(c.year + 1)) == 31;
    if c.month < 12 {
      assert MonthLength(c.month, IsLeap(c.year)) >= 28 by {
        MonthsAreLong(c.month, IsLeap(c.year));
      }
    }
    hide DaysIn, IsLeap, DayFromYear, MonthStart;
  }

  lemma MonthsAreLong(m: int, leap: bool)
    requires 0 <= m < 12
    ensures MonthLength(m, leap) >= 28
  {
  }

  lemma FirstDays()
    ensures Civil(1970, 1, 1).Valid() && DayOf(Civil(1970, 1, 1)) == 0
    ensures DayOf(Civil(1970, 1, 3)) == 2 && DayOf(Civil(1970, 1, 4)) == 3
  {
  }

  /** Days are counted along the calendar, one date after the other, from the first of January 1970. */
  lemma DaysFollowDates(day: int)
    ensures CivilFromDay(day + 1) == NextDate(CivilFromDay(day))
    ensures DayOf(Civil(1970, 1, 1)) == 0 && CivilFromDay(0) == Civil(1970, 1, 1)
  {
    FirstDays();
    hide CivilFromDay, NextDate, DayOf;
    NextDateIsNextDay(CivilFromDay(day));
    CivilUnique(CivilFromDay(day + 1), NextDate(CivilFromDay(day)));
    CivilUnique(CivilFromDay(0), Civil(1970, 1, 1));
  }

  /** Twelve months on is the same month of the next year, and days are counted on. */
  lemma MonthsCarryOver(year: int, month: int, date: int, delta: int)
    ensures MakeDay(year, month + 12, date) == MakeDay(year + 1, month, date)
    ensures MakeDay(year, month, date + delta) == MakeDay(year, month, date) + delta
  {
  }

  /** A day is twenty-four hours, and a time value is at most a hundred million days from the epoch. */
  lemma LengthsOfTime()
    ensures MS_PER_DAY == 24 * 60 * 60 * 1000 && NOON == 12 * 60 * 60 * 1000
    ensures MAX_TIME == 100_000_000 * MS_PER_DAY
  {
  }
}
