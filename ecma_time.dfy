/**
 * Time values and calendar arithmetic as ECMA-262 section 21.4.1 defines them:
 * a time value is an integer count of milliseconds since 1970-01-01T00:00:00Z
 * on the proleptic Gregorian calendar, with no leap seconds.  The handlers of
 * the calorie tracker use these through the JavaScript `Date` object.
 *
 * Months count from 1 here.  The source reads months with `getMonth()` and
 * passes them back to the `Date` constructor, both of which count from 0; the
 * shift is the same on both sides, so it is left out.
 */
module EcmaTime {

  const MS_PER_SECOND: int := 1000
  const MS_PER_MINUTE: int := 60000
  const MS_PER_HOUR: int := 3600000
  const MS_PER_DAY: int := 86400000

  /** The largest magnitude of a time value (section 21.4.1.1 and TimeClip). */
  const MAX_TIME: int := 8640000000000000

  /** A time value a `Date` object can hold. */
  type TimeValue = t: int | -MAX_TIME <= t <= MAX_TIME

  /** A year, month (1 to 12) and day of the month; not necessarily a real date. */
  datatype Date = Date(year: int, month: int, day: int)

  /** Day(t): the number of the day holding t; `/` rounds down for a positive divisor. */
  function Day(t: int): int
  {
    t / MS_PER_DAY
  }

  /** MakeTime for integral arguments. */
  function MakeTime(hour: int, minute: int, second: int, ms: int): int
  {
    hour * MS_PER_HOUR + minute * MS_PER_MINUTE + second * MS_PER_SECOND + ms
  }

  /** MakeDate: the time value of a given time on a given day. */
  function MakeDate(day: int, time: int): int
  {
    day * MS_PER_DAY + time
  }

  function DaysInYear(y: int): int
  {
    if y % 4 != 0 then 365
    else if y % 100 != 0 then 366
    else if y % 400 != 0 then 365
    else 366
  }

  predicate InLeapYear(y: int)
  {
    DaysInYear(y) == 366
  }

  /** DayFromYear: the day number of the first of January of year y. */
  function DayFromYear(y: int): int
  {
    365 * (y - 1970) + (y - 1969) / 4 - (y - 1901) / 100 + (y - 1601) / 400
  }

  /** The leap-day counts of DayFromYear step up at multiples of 4, 100 and 400. */
  lemma LeapCountStep4(y: int)
    ensures (y - 1968) / 4 - (y - 1969) / 4 == if y % 4 == 0 then 1 else 0
  {
  }

  lemma LeapCountStep100(y: int)
    ensures (y - 1900) / 100 - (y - 1901) / 100 == if y % 100 == 0 then 1 else 0
  {
  }

  lemma LeapCountStep400(y: int)
    ensures (y - 1600) / 400 - (y - 1601) / 400 == if y % 400 == 0 then 1 else 0
  {
  }

  /** Consecutive years are DaysInYear apart. */
  lemma DayFromYearStep(y: int)
    ensures DayFromYear(y + 1) == DayFromYear(y) + DaysInYear(y)
  {
    LeapCountStep4(y);
    LeapCountStep100(y);
    LeapCountStep400(y);
  }

  /** DayFromYear grows by at least 365 a year. */
  lemma {:induction false} DayFromYearMonotone(a: int, b: int)
    requires a <= b
    ensures DayFromYear(a) + 365 * (b - a) <= DayFromYear(b)
    decreases b - a
  {
    if a < b {
      DayFromYearMonotone(a, b - 1);
      DayFromYearStep(b - 1);
    }
  }

  function DaysInMonth(y: int, m: int): (n: int)
    requires 1 <= m <= 12
    ensures 28 <= n <= 31
  {
    if m == 2 then (if InLeapYear(y) then 29 else 28)
    else if m == 4 || m == 6 || m == 9 || m == 11 then 30
    else 31
  }

  /** Days of year y before the first of month m; m == 13 counts the whole year. */
  function DaysBeforeMonth(y: int, m: int): int
    requires 1 <= m <= 13
  {
    var common := [0, 31, 59, 90, 120, 151, 181, 212, 243, 273, 304, 334, 365][m - 1];
    if 3 <= m && InLeapYear(y) then common + 1 else common
  }

  lemma DaysBeforeMonthStep(y: int, m: int)
    requires 1 <= m <= 12
    ensures DaysBeforeMonth(y, m + 1) == DaysBeforeMonth(y, m) + DaysInMonth(y, m)
    ensures DaysBeforeMonth(y, 13) == DaysInYear(y)
  {
  }

  lemma {:induction false} DaysBeforeMonthMonotone(y: int, a: int, b: int)
    requires 1 <= a <= b <= 13
    ensures DaysBeforeMonth(y, a) + 28 * (b - a) <= DaysBeforeMonth(y, b)
    decreases b - a
  {
    if a < b {
      DaysBeforeMonthMonotone(y, a, b - 1);
      DaysBeforeMonthStep(y, b - 1);
    }
  }

  /**
   * MakeDay for a month in 1..12 and any day of the month: the first day of
   * the month plus date - 1, so a date past the month's end rolls over.
   */
  function MakeDay(year: int, month: int, date: int): int
    requires 1 <= month <= 12
  {
    DayFromYear(year) + DaysBeforeMonth(year, month) + date - 1
  }

  predicate IsCalendarDate(d: Date)
  {
    1 <= d.month <= 12 && 1 <= d.day <= DaysInMonth(d.year, d.month)
  }

  /** The day number of a date (its UTC midnight is DayNumber(d) * MS_PER_DAY). */
  function DayNumber(d: Date): int
    requires 1 <= d.month <= 12
  {
    MakeDay(d.year, d.month, d.day)
  }

  /** YearFromTime, searching upwards from a year that starts at or before day n. */
  function YearUp(n: int, y: int): (r: int)
    requires DayFromYear(y) <= n
    ensures DayFromYear(r) <= n < DayFromYear(r + 1)
    decreases n - DayFromYear(y)
  {
    DayFromYearStep(y);
    if n < DayFromYear(y + 1) then y else YearUp(n, y + 1)
  }

  /** YearFromTime, searching downwards from a year that ends after day n. */
  function YearDown(n: int, y: int): (r: int)
    requires n < DayFromYear(y + 1)
    ensures DayFromYear(r) <= n < DayFromYear(r + 1)
    decreases DayFromYear(y + 1) - n
  {
    DayFromYearStep(y);
    if DayFromYear(y) <= n then y else YearDown(n, y - 1)
  }

  /** The year holding day n: the last year whose first day is not after n. */
  function YearFromDay(n: int): (y: int)
    ensures DayFromYear(y) <= n < DayFromYear(y + 1)
  {
    if 0 <= n then YearUp(n, 1970) else YearDown(n, 1969)
  }

  /** MonthFromTime within a year, searching downwards from month m. */
  function MonthSearch(y: int, dayInYear: int, m: int): (r: int)
    requires 1 <= m <= 12
    requires 0 <= dayInYear < DaysBeforeMonth(y, m + 1)
    ensures 1 <= r <= m
    ensures DaysBeforeMonth(y, r) <= dayInYear < DaysBeforeMonth(y, r + 1)
    decreases m
  {
    if DaysBeforeMonth(y, m) <= dayInYear then m else MonthSearch(y, dayInYear, m - 1)
  }

  /**
   * The calendar date of day n (YearFromTime, MonthFromTime and DateFromTime
   * together): a real date whose day number is n.
   */
  function CivilFromDays(n: int): (d: Date)
    ensures IsCalendarDate(d)
    ensures DayNumber(d) == n
  {
    var y := YearFromDay(n);
    DayFromYearStep(y);
    DaysBeforeMonthStep(y, 1);
    var dayInYear := n - DayFromYear(y);
    var m := MonthSearch(y, dayInYear, 12);
    DaysBeforeMonthStep(y, m);
    Date(y, m, dayInYear - DaysBeforeMonth(y, m) + 1)
  }

  /**
   * MakeFullYear: the year the `Date` constructor uses when it is given
   * separate fields (section 21.4.2.1), which reads 0 to 99 as 1900 to 1999.
   */
  function MakeFullYear(y: int): int
  {
    if 0 <= y <= 99 then 1900 + y else y
  }

  /** Only one year's bounds hold a given day. */
  lemma YearBoundsUnique(n: int, y: int, r: int)
    requires DayFromYear(y) <= n < DayFromYear(y + 1)
    requires DayFromYear(r) <= n < DayFromYear(r + 1)
    ensures r == y
  {
    if r < y {
      DayFromYearMonotone(r + 1, y);
    } else if y < r {
      DayFromYearMonotone(y + 1, r);
    }
  }

  /** A day inside the bounds of year y lies in year y. */
  lemma YearOfDayNumber(n: int, y: int)
    requires DayFromYear(y) <= n < DayFromYear(y + 1)
    ensures CivilFromDays(n).year == y
  {
    YearBoundsUnique(n, y, YearFromDay(n));
  }

  /**
   * The month and day of a real date, placed in any year, fall inside that
   * year: 29 February of a leap year rolls over into March at most.
   */
  lemma MonthDayInAnyYear(d: Date, y: int)
    requires IsCalendarDate(d)
    ensures DayFromYear(y) <= MakeDay(y, d.month, d.day) < DayFromYear(y + 1)
  {
    DayFromYearStep(y);
    DaysBeforeMonthStep(y, d.month);
    DaysBeforeMonthMonotone(y, d.month + 1, 13);
  }

  /**
   * The day the constructor builds from a real date's fields: the date's own
   * day unless the year has two digits, and then a day of year 1900 + year.
   */
  lemma FullYearDay(d: Date)
    requires IsCalendarDate(d)
    ensures !(0 <= d.year <= 99) ==> MakeDay(MakeFullYear(d.year), d.month, d.day) == DayNumber(d)
    ensures 0 <= d.year <= 99 ==> DayNumber(d) < MakeDay(MakeFullYear(d.year), d.month, d.day)
    ensures CivilFromDays(MakeDay(MakeFullYear(d.year), d.month, d.day)).year == MakeFullYear(d.year)
  {
    var y := MakeFullYear(d.year);
    MonthDayInAnyYear(d, y);
    YearOfDayNumber(MakeDay(y, d.month, d.day), y);
    if 0 <= d.year <= 99 {
      DayNumberWithinYear(d);
      DayFromYearMonotone(d.year + 1, y);
    }
  }

  /** A real date lies inside its own year. */
  lemma DayNumberWithinYear(d: Date)
    requires IsCalendarDate(d)
    ensures DayFromYear(d.year) <= DayNumber(d) < DayFromYear(d.year + 1)
    ensures DaysBeforeMonth(d.year, d.month) <= DayNumber(d) - DayFromYear(d.year) < DaysBeforeMonth(d.year, d.month + 1)
  {
    DayFromYearStep(d.year);
    DaysBeforeMonthStep(d.year, d.month);
    DaysBeforeMonthMonotone(d.year, d.month + 1, 13);
  }

  /** Distinct real dates have distinct day numbers. */
  lemma DayNumberInjective(a: Date, b: Date)
    requires IsCalendarDate(a) && IsCalendarDate(b)
    requires DayNumber(a) == DayNumber(b)
    ensures a == b
  {
    SameDayNumberSameYear(a, b);
    DayNumberWithinYear(a);
    DayNumberWithinYear(b);
    MonthBoundsUnique(a.year, DayNumber(a) - DayFromYear(a.year), a.month, b.month);
  }

  /** Real dates with the same day number lie in the same year. */
  lemma SameDayNumberSameYear(a: Date, b: Date)
    requires IsCalendarDate(a) && IsCalendarDate(b)
    requires DayNumber(a) == DayNumber(b)
    ensures a.year == b.year
  {
    DayNumberWithinYear(a);
    DayNumberWithinYear(b);
    YearBoundsUnique(DayNumber(a), a.year, b.year);
  }

  /** Only one month's bounds within a year hold a given day of that year. */
  lemma MonthBoundsUnique(y: int, dayInYear: int, m: int, r: int)
    requires 1 <= m <= 12 && 1 <= r <= 12
    requires DaysBeforeMonth(y, m) <= dayInYear < DaysBeforeMonth(y, m + 1)
    requires DaysBeforeMonth(y, r) <= dayInYear < DaysBeforeMonth(y, r + 1)
    ensures r == m
  {
    if r < m {
      DaysBeforeMonthMonotone(y, r + 1, m);
    } else if m < r {
      DaysBeforeMonthMonotone(y, m + 1, r);
    }
  }

  /** Reading a real date back from its day number gives the date. */
  lemma CivilFromDayNumber(d: Date)
    requires IsCalendarDate(d)
    ensures CivilFromDays(DayNumber(d)) == d
  {
    DayNumberInjective(CivilFromDays(DayNumber(d)), d);
  }

  /** The following calendar date, rolling over the month and the year. */
  function NextDate(d: Date): (r: Date)
    requires IsCalendarDate(d)
    ensures IsCalendarDate(r)
    ensures DayNumber(r) == DayNumber(d) + 1
  {
    DaysBeforeMonthStep(d.year, d.month);
    DayFromYearStep(d.year);
    if d.day < DaysInMonth(d.year, d.month) then Date(d.year, d.month, d.day + 1)
    else if d.month < 12 then Date(d.year, d.month + 1, 1)
    else Date(d.year + 1, 1, 1)
  }

  /** An instant lies in the day Day(t) names. */
  lemma DayContains(t: int)
    ensures MakeDate(Day(t), 0) <= t < MakeDate(Day(t) + 1, 0)
  {
  }

  /** An instant r milliseconds into day k lies in day k, r after its midnight. */
  lemma DayOfTime(k: int, r: int)
    requires 0 <= r < MS_PER_DAY
    ensures Day(MakeDate(k, r)) == k
    ensures MakeDate(k, r) % MS_PER_DAY == r
  {
  }

  /** An instant at a midnight is that midnight of its own day. */
  lemma MidnightOfDay(t: int)
    requires t % MS_PER_DAY == 0
    ensures t == MakeDate(Day(t), 0)
  {
  }

  /** A time value's year needs at most six digits. */
  lemma YearOfTimeValue(t: TimeValue)
    ensures -999999 <= CivilFromDays(Day(t)).year <= 999999
  {
    var n := Day(t);
    var y := CivilFromDays(n).year;
    assert y == YearFromDay(n);
    assert -100000000 <= n <= 100000000;
    if 999999 < y {
      DayFromYearMonotone(1000000, y);
    } else if y < -999999 {
      DayFromYearMonotone(y + 1, -999999);
    }
  }

  /** The UTC calendar date of a time value (getUTCFullYear, getUTCMonth, getUTCDate). */
  function UtcDate(t: TimeValue): (d: Date)
    ensures IsCalendarDate(d) && DayNumber(d) == Day(t)
    ensures -999999 <= d.year <= 999999
  {
    YearOfTimeValue(t);
    CivilFromDays(Day(t))
  }
}
