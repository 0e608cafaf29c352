/**
 * `getFoodItemsByDate`: the rows logged on the UTC calendar day a label
 * names, oldest first.  The day is bounded by the literals
 * `label + 'T00:00:00.000Z'` and `label + 'T23:59:59.999Z'`, and the upper
 * bound is exclusive, so the last millisecond of every day is never selected.
 */
module FoodItemsByDate {
  import opened EcmaTime
  import opened IsoDate
  import opened FoodStore
  import opened Query

  /** The bounds of a half-open range [start, end) of time values. */
  datatype DayRange = DayRange(start: int, end: int)

  /** The time of day the suffix `T00:00:00.000Z` names. */
  const START_TIME: int := MakeTime(0, 0, 0, 0)

  /** The time of day the suffix `T23:59:59.999Z` names. */
  const END_TIME: int := MakeTime(23, 59, 59, 999)

  /**
   * `startDate` and `endDate` for a label: UTC midnight of the labelled date,
   * and one millisecond before the next date's UTC midnight.
   */
  function LabelRange(date: string): (b: DayRange)
    requires IsCalendarLabel(date)
    ensures b.start == DayNumber(ParseLabel(date)) * MS_PER_DAY
    ensures b.end == b.start + 86399999
    ensures b.end == DayNumber(NextDate(ParseLabel(date))) * MS_PER_DAY - 1
  {
    var day := DayNumber(ParseLabel(date));
    DayRange(MakeDate(day, START_TIME), MakeDate(day, END_TIME))
  }

  /**
   * The handler: the stored rows with `start <= logged_at < end`, every one
   * of them and nothing else, in ascending `logged_at` order.
   */
  function GetFoodItemsByDate(rows: seq<Row>, date: string): (items: seq<Row>)
    requires IsCalendarLabel(date)
    ensures SortedByLoggedAt(items)
    ensures forall x :: multiset(items)[x]
                     == if LabelRange(date).start <= x.loggedAt < LabelRange(date).end then multiset(rows)[x] else 0
  {
    var b := LabelRange(date);
    WhereCounts(rows, b.start, b.end);
    OrderByLoggedAt(Where(rows, b.start, b.end))
  }

  /** A row at the labelled date's midnight is returned; one at the next midnight is not. */
  lemma MidnightBoundaries(rows: seq<Row>, date: string, x: Row)
    requires IsCalendarLabel(date)
    requires x in rows
    ensures x.loggedAt == DayNumber(ParseLabel(date)) * MS_PER_DAY ==> x in GetFoodItemsByDate(rows, date)
    ensures x.loggedAt == DayNumber(NextDate(ParseLabel(date))) * MS_PER_DAY ==> x !in GetFoodItemsByDate(rows, date)
  {
    var items := GetFoodItemsByDate(rows, date);
    assert x in multiset(rows);
    if x.loggedAt == DayNumber(ParseLabel(date)) * MS_PER_DAY {
      assert x in multiset(items);
    }
  }

  /**
   * A row logged at 23:59:59.999Z of any date is returned for no date at all:
   * consecutive day ranges leave a gap of one millisecond.
   */
  lemma LastMillisecondInNoDay(rows: seq<Row>, x: Row, date: string, other: string)
    requires IsCalendarLabel(date) && IsCalendarLabel(other)
    requires x.loggedAt == DayNumber(ParseLabel(date)) * MS_PER_DAY + 86399999
    ensures x !in GetFoodItemsByDate(rows, other)
  {
    var k, j := DayNumber(ParseLabel(date)), DayNumber(ParseLabel(other));
    assert !(j * MS_PER_DAY <= k * MS_PER_DAY + 86399999 < j * MS_PER_DAY + 86399999) by {
      if k < j {
        assert k * MS_PER_DAY + MS_PER_DAY <= j * MS_PER_DAY;
      } else {
        assert j * MS_PER_DAY <= k * MS_PER_DAY;
      }
    }
    assert x !in multiset(GetFoodItemsByDate(rows, other));
  }

  /** The next date's range starts one millisecond after this date's range ends. */
  lemma ConsecutiveDaysLeaveGap(date: string)
    requires IsCalendarLabel(date)
    requires NextDate(ParseLabel(date)).year <= 9999
    ensures IsCalendarLabel(DatePart(NextDate(ParseLabel(date))))
    ensures LabelRange(DatePart(NextDate(ParseLabel(date)))).start == LabelRange(date).end + 1
  {
    var next := NextDate(ParseLabel(date));
    ParseDatePart(next);
  }

  /**
   * Every instant with a four-digit UTC year has a label, the date part of
   * its ISO string; the instant is inside that label's range unless it is the
   * last millisecond of its day.
   */
  lemma LabelOfInstant(t: TimeValue)
    requires 0 <= UtcDate(t).year <= 9999
    ensures IsCalendarLabel(DatePart(UtcDate(t)))
    ensures var b := LabelRange(DatePart(UtcDate(t)));
            b.start <= t < b.end <==> t % MS_PER_DAY != MS_PER_DAY - 1
  {
    ParseDatePart(UtcDate(t));
  }

  /** A date with no rows in its range yields an empty list, not an error. */
  lemma EmptyDay(rows: seq<Row>, date: string)
    requires IsCalendarLabel(date)
    requires forall i :: 0 <= i < |rows| ==> !(LabelRange(date).start <= rows[i].loggedAt < LabelRange(date).end)
    ensures GetFoodItemsByDate(rows, date) == []
  {
  }

  /** No two different rows share a timestamp. */
  predicate DistinctTimes(s: seq<Row>)
  {
    forall i, j :: 0 <= i < |s| && 0 <= j < |s| && s[i].loggedAt == s[j].loggedAt ==> s[i] == s[j]
  }

  /** The first row of a sorted sequence is logged no later than any row in it. */
  lemma HeadIsEarliest(a: seq<Row>, x: Row)
    requires SortedByLoggedAt(a)
    requires x in multiset(a)
    ensures a[0].loggedAt <= x.loggedAt
  {
    var i :| 0 <= i < |a| && a[i] == x;
  }

  /** Dropping the first row keeps a sequence sorted, and its timestamps distinct. */
  lemma TailSortedDistinct(a: seq<Row>)
    requires |a| > 0
    requires SortedByLoggedAt(a)
    ensures SortedByLoggedAt(a[1..])
    ensures DistinctTimes(a) ==> DistinctTimes(a[1..])
  {
    var t := a[1..];
    forall i, j | 0 <= i < j < |t|
      ensures t[i].loggedAt <= t[j].loggedAt
    {
      assert t[i] == a[i + 1] && t[j] == a[j + 1];
    }
    if DistinctTimes(a) {
      forall i, j | 0 <= i < |t| && 0 <= j < |t| && t[i].loggedAt == t[j].loggedAt
        ensures t[i] == t[j]
      {
        assert t[i] == a[i + 1] && t[j] == a[j + 1];
      }
    }
  }

  /** Two sorted orderings of the same rows, with distinct timestamps, start with the same row. */
  lemma SameHead(a: seq<Row>, b: seq<Row>)
    requires a != [] && b != []
    requires SortedByLoggedAt(a) && SortedByLoggedAt(b)
    requires multiset(a) == multiset(b)
    requires DistinctTimes(a)
    ensures a[0] == b[0]
  {
    assert a[0] in multiset(a) && b[0] in multiset(b);
    HeadIsEarliest(a, b[0]);
    HeadIsEarliest(b, a[0]);
    var j :| 0 <= j < |a| && a[j] == b[0];
  }

  /** Removing the same first row from two sequences with equal multisets leaves equal multisets. */
  lemma SameTailMultiset(a: seq<Row>, b: seq<Row>)
    requires a != [] && b != [] && a[0] == b[0]
    requires multiset(a) == multiset(b)
    ensures multiset(a[1..]) == multiset(b[1..])
  {
    assert a == [a[0]] + a[1..] && b == [b[0]] + b[1..];
    assert multiset(a[1..]) == multiset(a) - multiset{a[0]};
    assert multiset(b[1..]) == multiset(b) - multiset{b[0]};
  }

  /** When timestamps are distinct, the ordered result is fully determined. */
  lemma {:induction false} SortedPermutationIsUnique(a: seq<Row>, b: seq<Row>)
    requires SortedByLoggedAt(a) && SortedByLoggedAt(b)
    requires multiset(a) == multiset(b)
    requires DistinctTimes(a)
    ensures a == b
    decreases |a|
  {
    assert |b| == |multiset(b)| == |multiset(a)| == |a|;
    if a != [] {
      SameHead(a, b);
      SameTailMultiset(a, b);
      TailSortedDistinct(a);
      TailSortedDistinct(b);
      SortedPermutationIsUnique(a[1..], b[1..]);
      assert a == [a[0]] + a[1..] && b == [b[0]] + b[1..];
    }
  }

  /** With distinct timestamps, the result is the selection in time order, whatever the storage order. */
  lemma ItemsAreOrderedSelection(rows: seq<Row>, date: string, expected: seq<Row>)
    requires IsCalendarLabel(date)
    requires SortedByLoggedAt(expected) && DistinctTimes(expected)
    requires multiset(expected) == multiset(Where(rows, LabelRange(date).start, LabelRange(date).end))
    ensures GetFoodItemsByDate(rows, date) == expected
  {
    var b := LabelRange(date);
    SortedPermutationIsUnique(expected, GetFoodItemsByDate(rows, date));
  }

  /** UTC midnight of 2024-01-15, the date the scenarios below use. */
  const JAN_15_2024: int := 1705276800000

  lemma Jan15Label()
    ensures IsCalendarLabel("2024-01-15")
    ensures LabelRange("2024-01-15") == DayRange(JAN_15_2024, JAN_15_2024 + 86399999)
  {
    assert IsDateLabelShape("2024-01-15");
    ParseLabelDigits("2024-01-15");
    assert ParseLabel("2024-01-15") == Date(2024, 1, 15);
  }

  /** Three rows with increasing timestamps are sorted and have distinct timestamps. */
  lemma IncreasingTriple(a: Row, b: Row, c: Row)
    requires a.loggedAt < b.loggedAt < c.loggedAt
    ensures SortedByLoggedAt([a, b, c]) && DistinctTimes([a, b, c])
  {
  }

  /** The filter keeps three rows that are all in range, in storage order. */
  lemma WhereKeepsThree(a: Row, b: Row, c: Row, start: int, end: int)
    requires InRange(a, start, end) && InRange(b, start, end) && InRange(c, start, end)
    ensures Where([a, b, c], start, end) == [a, b, c]
  {
    WhereKeepsRowInside([], a, start, end);
    WhereKeepsRowInside([a], b, start, end);
    WhereKeepsRowInside([a, b], c, start, end);
    assert [] + [a] == [a] && [a] + [b] == [a, b] && [a, b] + [c] == [a, b, c];
  }

  /**
   * Rows inserted as dinner, breakfast, lunch (all within the day) come back
   * as breakfast, lunch, dinner.
   */
  lemma OrderedByTime(date: string, dinner: Row, breakfast: Row, lunch: Row)
    requires IsCalendarLabel(date)
    requires LabelRange(date).start <= breakfast.loggedAt < lunch.loggedAt < dinner.loggedAt < LabelRange(date).end
    ensures GetFoodItemsByDate([dinner, breakfast, lunch], date) == [breakfast, lunch, dinner]
  {
    var b := LabelRange(date);
    WhereKeepsThree(dinner, breakfast, lunch, b.start, b.end);
    IncreasingTriple(breakfast, lunch, dinner);
    assert multiset([breakfast, lunch, dinner]) == multiset([dinner, breakfast, lunch]);
    ItemsAreOrderedSelection([dinner, breakfast, lunch], date, [breakfast, lunch, dinner]);
  }

  /** The filter keeps the first two of three rows when only the third is out of range. */
  lemma WhereKeepsTwo(a: Row, b: Row, c: Row, start: int, end: int)
    requires InRange(a, start, end) && InRange(b, start, end) && !InRange(c, start, end)
    ensures Where([a, b, c], start, end) == [a, b]
  {
    WhereKeepsRowInside([], a, start, end);
    WhereKeepsRowInside([a], b, start, end);
    WhereSkipsRowOutside([a, b], c, start, end);
    assert [] + [a] == [a] && [a] + [b] == [a, b] && [a, b] + [c] == [a, b, c];
  }

  /**
   * A row at midnight and one at 23:59:59 are returned, in that order; one at
   * the next midnight is not.
   */
  lemma DayBoundaryScenario(date: string, snack: Row, late: Row, next: Row)
    requires IsCalendarLabel(date)
    requires snack.loggedAt == LabelRange(date).start
    requires late.loggedAt == LabelRange(date).start + MakeTime(23, 59, 59, 0)
    requires next.loggedAt == LabelRange(date).start + MS_PER_DAY
    ensures GetFoodItemsByDate([snack, late, next], date) == [snack, late]
  {
    var b := LabelRange(date);
    WhereKeepsTwo(snack, late, next, b.start, b.end);
    assert SortedByLoggedAt([snack, late]) && DistinctTimes([snack, late]);
    ItemsAreOrderedSelection([snack, late, next], date, [snack, late]);
  }
}
