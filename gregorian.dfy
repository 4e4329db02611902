/**
 * The proleptic Gregorian calendar, defined by counting days rather than by a
 * closed formula. It serves as the independent reference against which the
 * Julian-day conversion in module Calculations is proved.
 *
 * Years are astronomical: year 0 is 1 BC, year -1 is 2 BC, and so on.
 */
module Gregorian {

  /** The Gregorian leap-year rule: every fourth year, except centuries not divisible by 400. */
  ghost predicate IsLeapYear(year: int) {
    year % 4 == 0 && (year % 100 != 0 || year % 400 == 0)
  }

  ghost function DaysInYear(year: int): (n: int) {
    if IsLeapYear(year) then 366 else 365
  }

  ghost function DaysInMonth(year: int, month: int): (n: int)
    requires 1 <= month <= 12
    ensures 28 <= n <= 31
  {
    if month == 2 then (if IsLeapYear(year) then 29 else 28)
    else if month == 4 || month == 6 || month == 9 || month == 11 then 30
    else 31
  }

  /** A real calendar date: a month 1..12 and a day that exists in that month. */
  ghost predicate ValidDate(year: int, month: int, day: int) {
    1 <= month <= 12 && 1 <= day <= DaysInMonth(year, month)
  }

  /** Days in the months of `year` that come before `month`. */
  ghost function DaysBeforeMonth(year: int, month: int): (n: int)
    requires 1 <= month <= 12
    decreases month
  {
    if month == 1 then 0 else DaysBeforeMonth(year, month - 1) + DaysInMonth(year, month - 1)
  }

  /** 1-based ordinal of a day within its year (for a valid date). */
  ghost function DayOfYear(year: int, month: int, day: int): (n: int)
    requires 1 <= month <= 12
  {
    DaysBeforeMonth(year, month) + day
  }

  /**
   * Signed number of days from 1 January of year 0 to 1 January of `year`,
   * obtained by adding (or, for negative years, subtracting) whole years.
   */
  ghost function DaysBeforeYear(year: int): (n: int)
    decreases if year >= 0 then year else -year
  {
    if year == 0 then 0
    else if year > 0 then DaysBeforeYear(year - 1) + DaysInYear(year - 1)
    else DaysBeforeYear(year + 1) - DaysInYear(year)
  }

  /** Lexicographic (chronological) order on (year, month, day). */
  ghost predicate Precedes(y1: int, m1: int, d1: int, y2: int, m2: int, d2: int) {
    y1 < y2 || (y1 == y2 && (m1 < m2 || (m1 == m2 && d1 < d2)))
  }

  /** The cumulative month table: 0, 31, 59, 90, ... with one extra day after February in leap years. */
  lemma {:induction false} DaysBeforeMonthTable(year: int, month: int)
    requires 1 <= month <= 12
    ensures DaysBeforeMonth(year, month) ==
      [0, 31, 59, 90, 120, 151, 181, 212, 243, 273, 304, 334][month - 1]
      + (if month > 2 && IsLeapYear(year) then 1 else 0)
  {
    if month > 1 {
      DaysBeforeMonthTable(year, month - 1);
    }
  }

  /** The twelve months add up to the length of the year. */
  lemma MonthsFillYear(year: int)
    ensures DaysBeforeMonth(year, 12) + DaysInMonth(year, 12) == DaysInYear(year)
  {
    DaysBeforeMonthTable(year, 12);
  }

  /** A later month starts at least 28 days per intervening month later. */
  lemma {:induction false} DaysBeforeMonthGrows(year: int, m1: int, m2: int)
    requires 1 <= m1 <= m2 <= 12
    ensures DaysBeforeMonth(year, m2) >= DaysBeforeMonth(year, m1) + 28 * (m2 - m1)
    decreases m2
  {
    if m1 < m2 {
      DaysBeforeMonthGrows(year, m1, m2 - 1);
    }
  }

  /** The ordinal of a valid date lies between 1 and the length of its year. */
  lemma DayOfYearBounds(year: int, month: int, day: int)
    requires ValidDate(year, month, day)
    ensures 1 <= DayOfYear(year, month, day) <= DaysInYear(year)
  {
    DaysBeforeMonthGrows(year, month, 12);
    if month < 12 {
      DaysBeforeMonthGrows(year, month + 1, 12);
    }
    MonthsFillYear(year);
  }

  /** Within one year, a chronologically earlier valid date has a smaller ordinal. */
  lemma DayOfYearOrdered(year: int, m1: int, d1: int, m2: int, d2: int)
    requires ValidDate(year, m1, d1) && ValidDate(year, m2, d2)
    requires m1 < m2 || (m1 == m2 && d1 < d2)
    ensures DayOfYear(year, m1, d1) < DayOfYear(year, m2, d2)
  {
    if m1 < m2 {
      DaysBeforeMonthGrows(year, m1 + 1, m2);
    }
  }

  /** Consecutive years are exactly one year-length apart, for negative years too. */
  lemma DaysBeforeYearStep(year: int)
    ensures DaysBeforeYear(year + 1) == DaysBeforeYear(year) + DaysInYear(year)
  {
  }

  /** A later year starts at least a full year after an earlier one. */
  lemma {:induction false} DaysBeforeYearGrows(y1: int, y2: int)
    requires y1 < y2
    ensures DaysBeforeYear(y2) >= DaysBeforeYear(y1) + DaysInYear(y1)
    decreases y2 - y1
  {
    DaysBeforeYearStep(y2 - 1);
    if y1 < y2 - 1 {
      DaysBeforeYearGrows(y1, y2 - 1);
    }
  }
}
