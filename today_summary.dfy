/**
 * `getTodaySummary`: the rows logged between local midnight of the server's
 * current local date and local midnight of the next date, their total, and
 * the UTC date of the current instant as the label.
 *
 * The clock and the time zone are parameters: `now` is the instant `new
 * Date()` reads, and `offset` the fixed difference local time minus UTC in
 * milliseconds, so that LocalTime(t) = t + offset and UTC(t) = t - offset
 * (ECMA-262 sections 21.4.1.25 and 21.4.1.26 with a zone that has no
 * daylight-saving transitions).
 */
module TodaySummaryHandler {
  import opened EcmaTime
  import opened IsoDate
  import opened FoodStore
  import opened Query
  import opened Schema
  import opened FoodItemsByDate

  /** `getFullYear()`, `getMonth()`, `getDate()` of now: the calendar date of its local time. */
  function LocalDate(now: TimeValue, offset: int): (d: Date)
    ensures IsCalendarDate(d)
    ensures DayNumber(d) == Day(now + offset)
  {
    CivilFromDays(Day(now + offset))
  }

  /** Now's local year is one the `Date` constructor reads as 1900 + year. */
  predicate TwoDigitYear(now: TimeValue, offset: int)
  {
    0 <= LocalDate(now, offset).year <= 99
  }

  /**
   * `startOfDay` and `endOfDay`: `new Date(y, m, d)` and `new Date(y, m, d + 1)`
   * for now's local date, converted back to UTC.  The day `d + 1` past a
   * month's end rolls into the next month (and year), as MakeDay does for any
   * day count.  The constructor reads a year from 0 to 99 as 1900 + year, so
   * for those local years the range is a day of 1900 + year and misses now.
   */
  function TodayRange(now: TimeValue, offset: int): (b: DayRange)
    ensures b.end - b.start == MS_PER_DAY
    ensures (b.start + offset) % MS_PER_DAY == 0
    ensures !TwoDigitYear(now, offset) ==> b.start <= now < b.end
    ensures !TwoDigitYear(now, offset) ==> b.start + offset == DayNumber(LocalDate(now, offset)) * MS_PER_DAY
    ensures !TwoDigitYear(now, offset) ==> b.end + offset == DayNumber(NextDate(LocalDate(now, offset))) * MS_PER_DAY
    ensures TwoDigitYear(now, offset) ==> now < b.start
    ensures TwoDigitYear(now, offset) ==> CivilFromDays(Day(b.start + offset)).year == 1900 + LocalDate(now, offset).year
  {
    var d := LocalDate(now, offset);
    var y := MakeFullYear(d.year);
    var start := MakeDate(MakeDay(y, d.month, d.day), MakeTime(0, 0, 0, 0)) - offset;
    ConstructedMidnight(now, offset, MakeDay(y, d.month, d.day), start);
    DayRange(start, MakeDate(MakeDay(y, d.month, d.day + 1), MakeTime(0, 0, 0, 0)) - offset)
  }

  /** Where the local midnight the constructor builds from now's local date lies. */
  lemma ConstructedMidnight(now: TimeValue, offset: int, k: int, start: int)
    requires k == MakeDay(MakeFullYear(LocalDate(now, offset).year), LocalDate(now, offset).month, LocalDate(now, offset).day)
    requires start == MakeDate(k, 0) - offset
    ensures (start + offset) % MS_PER_DAY == 0
    ensures !TwoDigitYear(now, offset) ==> start <= now < start + MS_PER_DAY
    ensures !TwoDigitYear(now, offset) ==> k == DayNumber(LocalDate(now, offset))
    ensures TwoDigitYear(now, offset) ==> now < start
    ensures TwoDigitYear(now, offset) ==> CivilFromDays(Day(start + offset)).year == 1900 + LocalDate(now, offset).year
  {
    var d := LocalDate(now, offset);
    FullYearDay(d);
    DayOfTime(k, 0);
    assert Day(start + offset) == k by {
      assert start + offset == MakeDate(k, 0);
    }
    DayContains(now + offset);
    if TwoDigitYear(now, offset) {
      assert Day(now + offset) + 1 <= k;
      assert now + offset < MakeDate(Day(now + offset) + 1, 0) <= MakeDate(k, 0);
    }
  }

  /** The day number of the local midnight where today's range starts. */
  function StartDay(now: TimeValue, offset: int): int
  {
    Day(TodayRange(now, offset).start + offset)
  }

  /** Today's range runs from the midnight of its start day to the next one. */
  lemma RangeBounds(now: TimeValue, offset: int)
    ensures TodayRange(now, offset).start + offset == MakeDate(StartDay(now, offset), 0)
    ensures TodayRange(now, offset).end + offset == MakeDate(StartDay(now, offset) + 1, 0)
  {
    MidnightOfDay(TodayRange(now, offset).start + offset);
  }

  /** An instant of today's range lies on the range's start day. */
  lemma InstantOnStartDay(now: TimeValue, t: int, offset: int)
    requires TodayRange(now, offset).start <= t < TodayRange(now, offset).end
    ensures Day(t + offset) == StartDay(now, offset)
  {
    var k := StartDay(now, offset);
    RangeBounds(now, offset);
    DayOfTime(k, t + offset - MakeDate(k, 0));
  }

  /**
   * Where the local date of an instant has four digits, its range starts at
   * the midnight of the instant's own local day.
   */
  lemma RangeStartsOnOwnDay(t: TimeValue, offset: int)
    requires !TwoDigitYear(t, offset)
    ensures StartDay(t, offset) == Day(t + offset)
  {
    RangeBounds(t, offset);
    DayOfTime(DayNumber(LocalDate(t, offset)), 0);
  }

  /**
   * Every instant of today's range has the same range.  It has now's local
   * date too, unless the constructor moved the range to year 1900 + year.
   */
  lemma SameRangeAllDay(now: TimeValue, t: TimeValue, offset: int)
    requires TodayRange(now, offset).start <= t < TodayRange(now, offset).end
    ensures TodayRange(t, offset) == TodayRange(now, offset)
    ensures !TwoDigitYear(now, offset) ==> LocalDate(t, offset) == LocalDate(now, offset)
    ensures TwoDigitYear(now, offset) ==> LocalDate(t, offset).year == 1900 + LocalDate(now, offset).year
  {
    var k := StartDay(now, offset);
    InstantOnStartDay(now, t, offset);
    if !TwoDigitYear(now, offset) {
      RangeStartsOnOwnDay(now, offset);
    }
    assert LocalDate(t, offset) == CivilFromDays(k);
    RangeStartsOnOwnDay(t, offset);
    RangeBounds(now, offset);
    RangeBounds(t, offset);
  }

  /**
   * The range of the instant at which today's range ends starts exactly
   * there, across month and year ends too, unless that instant's local year
   * has two digits; after a local date with four digits it is the next date.
   */
  lemma NextRangeStartsAtEnd(now: TimeValue, later: TimeValue, offset: int)
    requires later == TodayRange(now, offset).end
    ensures !TwoDigitYear(now, offset) ==> LocalDate(later, offset) == NextDate(LocalDate(now, offset))
    ensures TodayRange(later, offset).start == TodayRange(now, offset).end <==> !TwoDigitYear(later, offset)
  {
    var k := StartDay(now, offset);
    RangeBounds(now, offset);
    DayOfTime(k + 1, 0);
    assert Day(later + offset) == k + 1;
    if !TwoDigitYear(later, offset) {
      RangeStartsOnOwnDay(later, offset);
      RangeBounds(later, offset);
    }
    if !TwoDigitYear(now, offset) {
      RangeStartsOnOwnDay(now, offset);
      LocalDateAtMidnight(later, offset, NextDate(LocalDate(now, offset)));
    }
  }

  /** An instant whose local time is the midnight starting a date has that local date. */
  lemma LocalDateAtMidnight(t: TimeValue, offset: int, d: Date)
    requires IsCalendarDate(d)
    requires t + offset == DayNumber(d) * MS_PER_DAY
    ensures LocalDate(t, offset) == d
  {
    assert Day(t + offset) == DayNumber(d);
    CivilFromDayNumber(d);
  }

  /** The range of an instant whose local date is d, a date of a year outside 0 to 99. */
  lemma RangeOfLocalDate(now: TimeValue, offset: int, d: Date)
    requires LocalDate(now, offset) == d
    requires !(0 <= d.year <= 99)
    ensures TodayRange(now, offset) == DayRange(MakeDate(DayNumber(d), 0) - offset, MakeDate(DayNumber(d) + 1, 0) - offset)
  {
  }

  /** The handler, with the clock reading and the zone's offset as parameters. */
  function GetTodaySummary(rows: seq<Row>, now: TimeValue, offset: int): (s: DailyCaloriesSummary)
    ensures s.date == DatePart(UtcDate(now))
    ensures forall x :: multiset(s.foodItems)[x]
                     == if TodayRange(now, offset).start <= x.loggedAt < TodayRange(now, offset).end
                        then multiset(rows)[x] else 0
    ensures s.totalCalories == CaloriesInRange(rows, TodayRange(now, offset).start, TodayRange(now, offset).end)
  {
    var b := TodayRange(now, offset);
    var items := Where(rows, b.start, b.end);
    WhereCounts(rows, b.start, b.end);
    SumOfWhere(rows, b.start, b.end);
    DateOfIsoString(now);
    DailyCaloriesSummary(BeforeFirst(ToIsoString(now), 'T'), SumCalories(items), items)
  }

  /** With nothing logged today the total is 0 and the list is empty. */
  lemma EmptyToday(rows: seq<Row>, now: TimeValue, offset: int)
    requires forall i :: 0 <= i < |rows| ==> !(TodayRange(now, offset).start <= rows[i].loggedAt < TodayRange(now, offset).end)
    ensures GetTodaySummary(rows, now, offset).totalCalories == 0
    ensures GetTodaySummary(rows, now, offset).foodItems == []
  {
    var b := TodayRange(now, offset);
    var s := GetTodaySummary(rows, now, offset);
    assert |multiset(s.foodItems)| == 0 by {
      forall x
        ensures multiset(s.foodItems)[x] == 0
      {
        if x in rows {
          var i :| 0 <= i < |rows| && rows[i] == x;
        }
      }
      assert multiset(s.foodItems) == multiset{};
    }
    SumOfWhere(rows, b.start, b.end);
  }

  /**
   * A row stored earlier today, for instance with the default timestamp of
   * an insert made before the query, is listed and counted.
   */
  lemma LoggedEarlierTodayCounted(rows: seq<Row>, x: Row, now: TimeValue, offset: int)
    requires TodayRange(now, offset).start <= x.loggedAt <= now
    ensures GetTodaySummary(rows + [x], now, offset).date == GetTodaySummary(rows, now, offset).date
    ensures multiset(GetTodaySummary(rows + [x], now, offset).foodItems)
         == multiset(GetTodaySummary(rows, now, offset).foodItems) + multiset{x}
    ensures GetTodaySummary(rows + [x], now, offset).totalCalories
         == GetTodaySummary(rows, now, offset).totalCalories + x.calories
  {
    var b := TodayRange(now, offset);
    WhereKeepsRowInside(rows, x, b.start, b.end);
    CaloriesInRangeSnoc(rows, x, b.start, b.end);
  }

  /** A row logged a day or more before now is neither listed nor counted. */
  lemma DayBeforeNotCounted(rows: seq<Row>, x: Row, now: TimeValue, offset: int)
    requires x.loggedAt <= now - MS_PER_DAY
    ensures SameSummary(GetTodaySummary(rows + [x], now, offset), GetTodaySummary(rows, now, offset))
  {
    var b := TodayRange(now, offset);
    WhereSkipsRowOutside(rows, x, b.start, b.end);
    CaloriesInRangeSnoc(rows, x, b.start, b.end);
  }

  /**
   * The label is the date part of now's local date exactly when now falls on
   * the same day in UTC and in local time.  For local years 0 to 99 that is
   * not the date summed, which `TodayRange` puts 1900 years later.
   */
  lemma LabelIsLocalDateIff(rows: seq<Row>, now: TimeValue, offset: int)
    requires 0 <= UtcDate(now).year <= 9999 && 0 <= LocalDate(now, offset).year <= 9999
    ensures GetTodaySummary(rows, now, offset).date == DatePart(LocalDate(now, offset))
        <==> Day(now) == Day(now + offset)
  {
    var u, l := UtcDate(now), LocalDate(now, offset);
    ParseDatePart(u);
    ParseDatePart(l);
    if Day(now) == Day(now + offset) {
      DayNumberInjective(u, l);
    }
  }

  /**
   * On a server whose zone is UTC the label is the filtered date.  For years
   * from 100 today's range is that label's explicit-date range extended by
   * the millisecond the explicit-date handlers leave out; for years up to 99
   * the constructor puts today's range wholly after the label's.
   */
  lemma UtcServerMatchesExplicitDate(rows: seq<Row>, now: TimeValue)
    requires 0 <= UtcDate(now).year <= 9999
    ensures IsCalendarLabel(GetTodaySummary(rows, now, 0).date)
    ensures GetTodaySummary(rows, now, 0).date == DatePart(LocalDate(now, 0))
    ensures var r := LabelRange(GetTodaySummary(rows, now, 0).date);
            100 <= UtcDate(now).year ==> TodayRange(now, 0) == DayRange(r.start, r.end + 1)
    ensures var r := LabelRange(GetTodaySummary(rows, now, 0).date);
            UtcDate(now).year <= 99 ==> r.end < TodayRange(now, 0).start
  {
    var u := UtcDate(now);
    assert LocalDate(now, 0) == u;
    ParseDatePart(u);
    var r := LabelRange(DatePart(u));
    assert r.start == MakeDate(Day(now), 0);
    if u.year <= 99 {
      var k := StartDay(now, 0);
      RangeBounds(now, 0);
      DayContains(now);
      assert Day(now) < k;
    } else {
      RangeStartsOnOwnDay(now, 0);
      RangeBounds(now, 0);
    }
  }

  /**
   * 0001-01-01 starts at -62135596800000, but `new Date(1, 0, 1)` builds
   * 1901-01-01, which starts at -2177452800000: on a UTC server at the first
   * instant of year 1 today's range begins 1900 years after now.
   */
  lemma YearOneConstructed()
    ensures MakeDate(DayNumber(Date(1, 1, 1)), 0) == -62135596800000
    ensures MakeDate(MakeDay(MakeFullYear(1), 1, 1), 0) == -2177452800000
  {
  }

  /** When now's local year has two digits, a row logged at now is not counted. */
  lemma TwoDigitYearSkipsNow(rows: seq<Row>, x: Row, now: TimeValue, offset: int)
    requires TwoDigitYear(now, offset)
    requires x.loggedAt == now
    ensures SameSummary(GetTodaySummary(rows + [x], now, offset), GetTodaySummary(rows, now, offset))
  {
    var b := TodayRange(now, offset);
    WhereSkipsRowOutside(rows, x, b.start, b.end);
    CaloriesInRangeSnoc(rows, x, b.start, b.end);
  }

  /**
   * Five hours west of UTC, at 2024-01-16T02:00:00.000Z, the rows of
   * 2024-01-15 local time are summed (05:00Z on the 15th to 05:00Z on the
   * 16th) but the summary is labelled with the UTC date 2024-01-16.
   */
  lemma LabelDiffersFromLocalDay(rows: seq<Row>)
    ensures var now, offset := JAN_15_2024 + MS_PER_DAY + 2 * MS_PER_HOUR, -5 * MS_PER_HOUR;
            && LocalDate(now, offset) == Date(2024, 1, 15)
            && TodayRange(now, offset) == DayRange(JAN_15_2024 + 5 * MS_PER_HOUR, JAN_15_2024 + 29 * MS_PER_HOUR)
            && GetTodaySummary(rows, now, offset).date == "2024-01-16"
  {
    var now, offset := JAN_15_2024 + MS_PER_DAY + 2 * MS_PER_HOUR, -5 * MS_PER_HOUR;
    UtcMinusFiveDates(now, offset);
    RangeOfLocalDate(now, offset, Date(2024, 1, 15));
    Jan16DatePart();
  }

  /** The local and UTC dates at 2024-01-16T02:00Z, five hours west of UTC. */
  lemma UtcMinusFiveDates(now: TimeValue, offset: int)
    requires now == JAN_15_2024 + MS_PER_DAY + 2 * MS_PER_HOUR && offset == -5 * MS_PER_HOUR
    ensures LocalDate(now, offset) == Date(2024, 1, 15)
    ensures UtcDate(now) == Date(2024, 1, 16)
  {
    var jan15, jan16 := Date(2024, 1, 15), Date(2024, 1, 16);
    assert DayNumber(jan15) == 19737 && DayNumber(jan16) == 19738;
    assert Day(now + offset) == 19737 && Day(now) == 19738;
    CivilFromDayNumber(jan15);
    DayNumberInjective(UtcDate(now), jan16);
  }

  lemma Jan16DatePart()
    ensures DatePart(Date(2024, 1, 16)) == "2024-01-16"
  {
    assert Pad(2024, 4) == "2024";
    assert Pad(1, 2) == "01" && Pad(16, 2) == "16";
  }
}
