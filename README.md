# Julian day conversion of the adhan prayer-time library

The adhan library is meant to compute Islamic prayer times (setup.py:29).
Its only implemented logic is `gregorian_to_julian` in its calculation
module. It turns a proleptic Gregorian date into an integer
Julian Day Number. It uses the closed formula over a year that starts in
March:

- January and February count as months 13 and 14 of the year before.
- The days of the earlier months come from `(153 * month_index + 2) // 5`.
- The days of the earlier years are `365 * years_elapsed`, counted from year -4800.
- Leap days follow the 4/100/400 rule.
- A fixed offset of -32045 is added.

This project models that function and proves that its result really is a
day count.

- `calculations.dfy`, module `Calculations`: the conversion
  `GregorianToJulian(year, month, day)`. It has one helper per intermediate
  value of `gregorian_to_julian` (`BeforeMarch`, `MonthIndex`, `DaysInPreviousMonths`,
  `LeapDays`). The lemmas about it follow.
- `gregorian.dfy`, module `Gregorian`: an independent reference calendar,
  defined by counting days rather than by formula. It defines the leap rule,
  the month lengths, the days before a month, the days before a year
  (counted from 1 January of year 0, in both directions), the day of the
  year and the chronological order of dates.

The central result is `Calculations.JulianDayIsDayCount`. For every year and
every month 1..12, the formula equals 1721060 plus the days that the
reference calendar counts from 1 January of year 0. Continuity, the
400-year period and strict monotonicity are proved beside it.

Modelling decisions:

- Python integers are unbounded, and so are Dafny's `int`, so there is no
  overflow to model.
- Python's `//` is floor division. Dafny's `/` on `int` is Euclidean
  division. Every divisor in the formula is a positive constant, and for
  positive divisors the two agree. This holds also for years before -4800,
  where `years_elapsed` is negative.
- `gregorian_to_julian` receives a `datetime.date`, which guarantees a real date in
  years 1..9999. The model takes any integer year and day and requires only
  a month in 1..12, the one thing the formula's month term depends on.
  Results that need a date that exists (monotonicity) require
  `Gregorian.ValidDate` instead. Results that hold for every year, such as
  continuity and the 400-year period, are stated for every integer year.
- The result is an integer, as the docstring promises ("A Julian day, as an
  integer", adhan/calculations.py:28).

## Model

| member | source | states |
|---|---|---|
| Calculations.GregorianToJulian | adhan/calculations.py:24-60 | the conversion itself, term by term as in the source; its meaning is given by `JulianDayIsDayCount` (it equals the reference calendar's day count) and `StrictlyMonotonic` (it orders valid dates chronologically) |
| Calculations.LeapDays | adhan/calculations.py:48-52 | the `total_leap_days` term with floor division; its meaning is given by `LeapDaysStep` (one more exactly in a leap year) and `LeapDaysPeriod` (97 per 400 years) |
| Calculations.BeforeMarch | adhan/calculations.py:34 | the flag is 0 or 1, and it is 1 exactly for months before March |
| Calculations.MonthIndex | adhan/calculations.py:39 | for months 1..12 the index lies in [0, 11] and counts months since March: the month is recovered as `(index + 2) % 12 + 1` |
| Calculations.DaysInPreviousMonths | adhan/calculations.py:46 | for every month index in [0, 11] the month-days term lies in [0, 337] |
| Calculations.MonthTermCountsDaysSinceMarch | adhan/calculations.py:34-46 | the `(153*i+2)//5` term equals the days the reference calendar counts from 1 March of the March-based year to the first of the month, for every month, January and February reaching back into the previous calendar year |
| Calculations.LeapDaysStep | adhan/calculations.py:48-52 | the leap-day term grows by exactly one from one year-count to the next when the next year is a Gregorian leap year, and otherwise stays the same |
| Calculations.LeapDaysPeriod | adhan/calculations.py:48-52 | 400 more elapsed years add exactly 97 leap days |
| Calculations.LeapYearShift | adhan/calculations.py:32-44 | counting years from -4800 keeps the leap rule: year `y + 4800` is a leap year exactly when `y` is |
| Calculations.ReferenceDate | tests/test_calculations.py:27-38 | 14 December 2015 converts to 2457371 |
| Calculations.EpochDate | adhan/calculations.py:59 | the offset makes 24 November of year -4713 (1 January 4713 BC of the Julian calendar) Julian day 0 |
| Calculations.BeforeMarchReferenceDate | adhan/calculations.py:34-60 | January takes the before-March branch with month index 10, and 18 January 2016 converts to 2457406 |
| Calculations.NextDay | adhan/calculations.py:54-60 | within a month, the next day has the next Julian day number |
| Calculations.DaysFromMonthStart | adhan/calculations.py:54-60 | in every month, day `d` converts to the Julian day of the first of the month plus `d - 1` |
| Calculations.MonthBoundary | adhan/calculations.py:34-52 | for months 1..11, the first of the next month is one day after the last day of the month (28 or 29 for February by the leap rule) |
| Calculations.YearBoundary | adhan/calculations.py:34-47 | 1 January of the next year is one day after 31 December |
| Calculations.YearLength | adhan/calculations.py:44-52 | 1 January of consecutive years are 365 or 366 days apart, as the leap rule says |
| Calculations.FourHundredYearPeriod | adhan/calculations.py:47-52 | the same date 400 years later is exactly 146097 days later |
| Calculations.YearStartIsDayCount | adhan/calculations.py:24-60 | 1 January of every year, negative years included, converts to 1721060 plus the days of the whole years between year 0 and that year |
| Calculations.MonthStartIsDayCount | adhan/calculations.py:24-60 | the first of each month converts to 1 January of its year plus the days of the months before it |
| Calculations.JulianDayIsDayCount | adhan/calculations.py:24-60 | for every year, month 1..12 and day, the conversion equals 1721060 plus the reference calendar's count of days since 1 January of year 0 |
| Calculations.StrictlyMonotonic | adhan/calculations.py:24-60 | for two valid dates, the first comes chronologically before the second if and only if its Julian day is smaller, so the conversion is strictly increasing and one-to-one |

## Left out

- `adhan.adhan` (adhan/adhan.py:25-43) has an empty body, so it has no behaviour to model. Its docstring (adhan/adhan.py:26-41) only says that it computes prayer times for a day and a location from a dictionary of calculation-method parameters, with a selectable Asr method, and naively adds a timezone offset in hours to each time. No computation of those times exists in the library's files.
- The sunrise and sunset angle constants (adhan/adhan.py:21-22) are floating-point data that nothing uses yet.
- The calculation-method presets in adhan/methods.py are constant configuration dictionaries with no logic.
- The end-to-end prayer-time test in tests/test_adhan.py exercises the empty `adhan` function. It compares datetimes with a two-minute tolerance.
- setup.py is packaging only.
- The `datetime.date` argument becomes three integers. Range checks done by Python's `datetime` (years 1..9999, a day that exists) belong to that library, not to the conversion.
