/**
 * Conversion of a proleptic Gregorian date to its Julian Day Number, by the
 * closed formula over a year that starts in March, and the properties that
 * make the result a day count: consecutive days get consecutive numbers,
 * across month and year ends, the calendar repeats every 400 years, and the
 * numbering is strictly increasing in the date.
 */
module Calculations {
  import opened Gregorian

  const MonthsPerYear: int := 12
  const March: int := 3
  const JulianStartYear: int := -4800
  /** Shifts the count so that 1 January 4713 BC of the Julian calendar is day 0. */
  const JulianDayOffset: int := -32045
  /** Julian Day Number of 1 January of year 0 (1 BC) in the proleptic Gregorian calendar. */
  const YearZeroJulianDay: int := 1721060

  /** 1 for January and February, which belong to the March-based year before; 0 otherwise. */
  function BeforeMarch(month: int): (b: int)
    ensures b == 0 || b == 1
    ensures b == 1 <==> month < March
  {
    if month < March then 1 else 0
  }

  /** Number of months since March: March is 0, ..., December is 9, January 10, February 11. */
  function MonthIndex(month: int): (i: int)
    requires 1 <= month <= MonthsPerYear
    ensures 0 <= i < MonthsPerYear
    ensures (i + March - 1) % MonthsPerYear + 1 == month
  {
    month + MonthsPerYear * BeforeMarch(month) - March
  }

  /** Days from 1 March to the first day of the month `monthIndex` months later. */
  function DaysInPreviousMonths(monthIndex: int): (d: int)
    requires 0 <= monthIndex < MonthsPerYear
    ensures 0 <= d <= 337
  {
    (153 * monthIndex + 2) / 5
  }

  /** Leap days in `yearsElapsed` March-based years counted from year -4800 (floor division). */
  function LeapDays(yearsElapsed: int): (leapDays: int) {
    yearsElapsed / 4 - yearsElapsed / 100 + yearsElapsed / 400
  }

  /** Julian Day Number of the date (year, month, day). */
  function GregorianToJulian(year: int, month: int, day: int): (julianDay: int)
    requires 1 <= month <= MonthsPerYear
  {
    var beforeMarch := BeforeMarch(month);
    var monthIndex := MonthIndex(month);
    var yearsElapsed := year - JulianStartYear - beforeMarch;
    var totalDaysInPreviousMonths := DaysInPreviousMonths(monthIndex);
    var totalDaysInPreviousYears := 365 * yearsElapsed;
    var totalLeapDays := LeapDays(yearsElapsed);
    day + totalDaysInPreviousMonths + totalDaysInPreviousYears + totalLeapDays + JulianDayOffset
  }

  // ---------------------------------------------------------------------------
  // Reference values

  lemma ReferenceDate()
    ensures GregorianToJulian(2015, 12, 14) == 2457371
  {
  }

  /** Day 0 of the count: 1 January 4713 BC of the Julian calendar is 24 November -4713 in the proleptic Gregorian one. */
  lemma EpochDate()
    ensures GregorianToJulian(-4713, 11, 24) == 0
  {
  }

  /** A January date goes through the before-March branch. */
  lemma BeforeMarchReferenceDate()
    ensures BeforeMarch(1) == 1 && MonthIndex(1) == 10
    ensures GregorianToJulian(2016, 1, 18) == 2457406
  {
  }

  // ---------------------------------------------------------------------------
  // The terms of the formula

  /**
   * The month term counts the days from 1 March of the March-based year to the
   * first of the month: for March..December within the same calendar year, for
   * January and February from 1 March of the previous calendar year.
   */
  lemma MonthTermCountsDaysSinceMarch(year: int, month: int)
    requires 1 <= month <= MonthsPerYear
    ensures DaysInPreviousMonths(MonthIndex(month)) ==
      if month >= March then DaysBeforeMonth(year, month) - DaysBeforeMonth(year, March)
      else DaysInYear(year - 1) - DaysBeforeMonth(year - 1, March) + DaysBeforeMonth(year, month)
  {
    DaysBeforeMonthTable(year, month);
    DaysBeforeMonthTable(year, March);
    DaysBeforeMonthTable(year - 1, March);
  }

  /** Floor division by a positive constant steps up exactly at multiples. */
  lemma FloorDivStep(n: int)
    ensures (n + 1) / 4 == n / 4 + (if (n + 1) % 4 == 0 then 1 else 0)
    ensures (n + 1) / 100 == n / 100 + (if (n + 1) % 100 == 0 then 1 else 0)
    ensures (n + 1) / 400 == n / 400 + (if (n + 1) % 400 == 0 then 1 else 0)
  {
  }

  /** The leap-day term grows by one exactly when the next year is a Gregorian leap year. */
  lemma LeapDaysStep(n: int)
    ensures LeapDays(n + 1) == LeapDays(n) + (if IsLeapYear(n + 1) then 1 else 0)
  {
    FloorDivStep(n);
    var m := n + 1;
    if m % 100 == 0 {
      assert m % 4 == 0;
    }
    if m % 400 == 0 {
      assert m % 100 == 0;
    }
  }

  /** 400 years contain exactly 97 leap days. */
  lemma LeapDaysPeriod(n: int)
    ensures LeapDays(n + 400) == LeapDays(n) + 97
  {
    assert (n + 400) / 4 == n / 4 + 100;
    assert (n + 400) / 100 == n / 100 + 4;
    assert (n + 400) / 400 == n / 400 + 1;
  }

  /** Counting from year -4800 preserves the leap rule, since 4800 is a multiple of 400. */
  lemma LeapYearShift(year: int)
    ensures IsLeapYear(year - JulianStartYear) == IsLeapYear(year)
  {
    assert (year + 4800) % 4 == year % 4;
    assert (year + 4800) % 100 == year % 100;
    assert (year + 4800) % 400 == year % 400;
  }

  // ---------------------------------------------------------------------------
  // Continuity

  /** Within a month, the next day is the next Julian day. */
  lemma NextDay(year: int, month: int, day: int)
    requires 1 <= month <= MonthsPerYear
    ensures GregorianToJulian(year, month, day + 1) == GregorianToJulian(year, month, day) + 1
  {
  }

  /** The first of a month follows the last day of the month before, February included. */
  lemma MonthBoundary(year: int, month: int)
    requires 1 <= month < MonthsPerYear
    ensures GregorianToJulian(year, month + 1, 1) ==
      GregorianToJulian(year, month, DaysInMonth(year, month)) + 1
  {
    if month == 2 {
      // February ends the March-based year: the years-elapsed count moves on by one.
      LeapDaysStep(year - JulianStartYear - 1);
      LeapYearShift(year);
    }
  }

  /** 1 January follows 31 December of the year before. */
  lemma YearBoundary(year: int)
    ensures GregorianToJulian(year + 1, 1, 1) == GregorianToJulian(year, 12, 31) + 1
  {
  }

  /** 1 January of consecutive years are one Gregorian year-length apart. */
  lemma YearLength(year: int)
    ensures GregorianToJulian(year + 1, 1, 1) == GregorianToJulian(year, 1, 1) + DaysInYear(year)
  {
    LeapDaysStep(year - JulianStartYear - 1);
    LeapYearShift(year);
  }

  /** The Gregorian calendar repeats every 400 years, which hold 146097 days. */
  lemma FourHundredYearPeriod(year: int, month: int, day: int)
    requires 1 <= month <= MonthsPerYear
    ensures GregorianToJulian(year + 400, month, day) == GregorianToJulian(year, month, day) + 146097
  {
    LeapDaysPeriod(year - JulianStartYear - BeforeMarch(month));
  }

  // ---------------------------------------------------------------------------
  // The Julian day is a day count

  lemma {:induction false} YearStartIsDayCount(year: int)
    ensures GregorianToJulian(year, 1, 1) == YearZeroJulianDay + DaysBeforeYear(year)
    decreases if year >= 0 then year else -year
  {
    if year > 0 {
      YearStartIsDayCount(year - 1);
      YearLength(year - 1);
      DaysBeforeYearStep(year - 1);
    } else if year < 0 {
      YearStartIsDayCount(year + 1);
      YearLength(year);
      DaysBeforeYearStep(year);
    }
  }

  /** The day enters the sum linearly: day `day` is `day - 1` days after the first. */
  lemma DaysFromMonthStart(year: int, month: int, day: int)
    requires 1 <= month <= MonthsPerYear
    ensures GregorianToJulian(year, month, day) == GregorianToJulian(year, month, 1) + day - 1
  {
  }

  lemma {:induction false} MonthStartIsDayCount(year: int, month: int)
    requires 1 <= month <= MonthsPerYear
    ensures GregorianToJulian(year, month, 1) ==
      GregorianToJulian(year, 1, 1) + DaysBeforeMonth(year, month)
  {
    if month > 1 {
      var previous := month - 1;
      MonthStartIsDayCount(year, previous);
      MonthBoundary(year, previous);
      DaysFromMonthStart(year, previous, DaysInMonth(year, previous));
    }
  }

  /**
   * The Julian Day Number is 1721060 (1 January of year 0) plus the days counted
   * month by month and year by year in the reference calendar.
   */
  lemma JulianDayIsDayCount(year: int, month: int, day: int)
    requires 1 <= month <= MonthsPerYear
    ensures GregorianToJulian(year, month, day) ==
      YearZeroJulianDay + DaysBeforeYear(year) + DayOfYear(year, month, day) - 1
  {
    YearStartIsDayCount(year);
    MonthStartIsDayCount(year, month);
    DaysFromMonthStart(year, month, day);
  }

  /** On valid dates the conversion is strictly increasing, hence also one-to-one. */
  lemma StrictlyMonotonic(y1: int, m1: int, d1: int, y2: int, m2: int, d2: int)
    requires ValidDate(y1, m1, d1) && ValidDate(y2, m2, d2)
    ensures Precedes(y1, m1, d1, y2, m2, d2) <==>
      GregorianToJulian(y1, m1, d1) < GregorianToJulian(y2, m2, d2)
  {
    JulianDayIsDayCount(y1, m1, d1);
    JulianDayIsDayCount(y2, m2, d2);
    DayOfYearBounds(y1, m1, d1);
    DayOfYearBounds(y2, m2, d2);
    if y1 < y2 {
      DaysBeforeYearGrows(y1, y2);
    } else if y2 < y1 {
      DaysBeforeYearGrows(y2, y1);
    } else if m1 < m2 || (m1 == m2 && d1 < d2) {
      DayOfYearOrdered(y1, m1, d1, m2, d2);
    } else if m2 < m1 || (m1 == m2 && d2 < d1) {
      DayOfYearOrdered(y1, m2, d2, m1, d1);
    }
  }
}
