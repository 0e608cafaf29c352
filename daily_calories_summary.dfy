/**
 * `getDailyCaloriesSummary`: the same day range and filter as
 * `getFoodItemsByDate`, without an `orderBy`, plus the total of the selected
 * rows' calories and the input label passed back as the summary's date.
 */
module DailyCaloriesSummaryHandler {
  import opened IsoDate
  import opened FoodStore
  import opened Query
  import opened Schema
  import opened FoodItemsByDate

  /**
   * The handler over a snapshot of the stored rows.  The rows come back in
   * storage order here; the database promises no order at all, so only the
   * multiset of rows is stated.
   */
  function GetDailyCaloriesSummary(rows: seq<Row>, date: string): (s: DailyCaloriesSummary)
    requires IsCalendarLabel(date)
    ensures s.date == date
    ensures forall x :: multiset(s.foodItems)[x]
                     == if LabelRange(date).start <= x.loggedAt < LabelRange(date).end then multiset(rows)[x] else 0
    ensures s.totalCalories == CaloriesInRange(rows, LabelRange(date).start, LabelRange(date).end)
  {
    var b := LabelRange(date);
    var items := Where(rows, b.start, b.end);
    WhereCounts(rows, b.start, b.end);
    SumOfWhere(rows, b.start, b.end);
    DailyCaloriesSummary(date, SumCalories(items), items)
  }

  /**
   * The summary lists the same rows as `getFoodItemsByDate` for the label, up
   * to order, and its total is theirs.
   */
  lemma SummaryAgreesWithItemsByDate(rows: seq<Row>, date: string)
    requires IsCalendarLabel(date)
    ensures multiset(GetDailyCaloriesSummary(rows, date).foodItems) == multiset(GetFoodItemsByDate(rows, date))
    ensures GetDailyCaloriesSummary(rows, date).totalCalories == SumCalories(GetFoodItemsByDate(rows, date))
  {
    var s, items := GetDailyCaloriesSummary(rows, date), GetFoodItemsByDate(rows, date);
    assert multiset(s.foodItems) == multiset(items);
    SumCaloriesPermutation(s.foodItems, items);
  }

  /** A date with no rows in range: total 0 and an empty list. */
  lemma EmptySummary(rows: seq<Row>, date: string)
    requires IsCalendarLabel(date)
    requires forall i :: 0 <= i < |rows| ==> !(LabelRange(date).start <= rows[i].loggedAt < LabelRange(date).end)
    ensures GetDailyCaloriesSummary(rows, date) == DailyCaloriesSummary(date, 0, [])
  {
    var s := GetDailyCaloriesSummary(rows, date);
    assert |multiset(s.foodItems)| == 0 by {
      forall x
        ensures multiset(s.foodItems)[x] == 0
      {
        if x in rows {
          var i :| 0 <= i < |rows| && rows[i] == x;
        }
      }
      assert multiset(s.foodItems) == multiset{};
    }
  }

  /** Storing a row outside the day changes neither the total nor the rows listed. */
  lemma OtherDayRowIgnored(rows: seq<Row>, x: Row, date: string)
    requires IsCalendarLabel(date)
    requires !(LabelRange(date).start <= x.loggedAt < LabelRange(date).end)
    ensures SameSummary(GetDailyCaloriesSummary(rows + [x], date), GetDailyCaloriesSummary(rows, date))
  {
    var b := LabelRange(date);
    WhereSkipsRowOutside(rows, x, b.start, b.end);
  }

  /** Storing a row inside the day adds it to the list and its calories to the total. */
  lemma SameDayRowCounted(rows: seq<Row>, x: Row, date: string)
    requires IsCalendarLabel(date)
    requires LabelRange(date).start <= x.loggedAt < LabelRange(date).end
    ensures GetDailyCaloriesSummary(rows + [x], date).date == date
    ensures multiset(GetDailyCaloriesSummary(rows + [x], date).foodItems)
         == multiset(GetDailyCaloriesSummary(rows, date).foodItems) + multiset{x}
    ensures GetDailyCaloriesSummary(rows + [x], date).totalCalories
         == GetDailyCaloriesSummary(rows, date).totalCalories + x.calories
  {
    var b := LabelRange(date);
    WhereKeepsRowInside(rows, x, b.start, b.end);
    CaloriesInRangeSnoc(rows, x, b.start, b.end);
  }

  /** A row logged at 23:59:59.999Z of the date is missing from that date's summary. */
  lemma LastMillisecondUncounted(rows: seq<Row>, x: Row, date: string)
    requires IsCalendarLabel(date)
    requires x.loggedAt == LabelRange(date).start + 86399999
    ensures SameSummary(GetDailyCaloriesSummary(rows + [x], date), GetDailyCaloriesSummary(rows, date))
  {
    OtherDayRowIgnored(rows, x, date);
  }

  /** Apple, banana and orange logged on the day total 95 + 105 + 62 = 262. */
  lemma ThreeItemsScenario(date: string, apple: Row, banana: Row, orange: Row)
    requires IsCalendarLabel(date)
    requires apple.calories == 95 && banana.calories == 105 && orange.calories == 62
    requires LabelRange(date).start <= apple.loggedAt < LabelRange(date).end
    requires LabelRange(date).start <= banana.loggedAt < LabelRange(date).end
    requires LabelRange(date).start <= orange.loggedAt < LabelRange(date).end
    ensures SameSummary(GetDailyCaloriesSummary([apple, banana, orange], date),
                        DailyCaloriesSummary(date, 262, [apple, banana, orange]))
  {
    var b := LabelRange(date);
    WhereKeepsThree(apple, banana, orange, b.start, b.end);
    SumCaloriesOfThree(apple, banana, orange);
  }

  /** The fold of three rows adds their calories. */
  lemma SumCaloriesOfThree(a: Row, b: Row, c: Row)
    ensures SumCalories([a, b, c]) == a.calories + b.calories + c.calories
  {
    assert [] + [a] == [a] && [a] + [b] == [a, b] && [a, b] + [c] == [a, b, c];
    SumCaloriesSnoc([], a);
    SumCaloriesSnoc([a], b);
    SumCaloriesSnoc([a, b], c);
  }

  /** A store whose rows all have nonnegative calories yields a nonnegative total. */
  lemma TotalNonNegative(rows: seq<Row>, date: string)
    requires IsCalendarLabel(date)
    requires forall i :: 0 <= i < |rows| ==> 0 <= rows[i].calories
    ensures 0 <= GetDailyCaloriesSummary(rows, date).totalCalories
  {
    var items := GetDailyCaloriesSummary(rows, date).foodItems;
    forall i | 0 <= i < |items|
      ensures 0 <= items[i].calories
    {
      assert items[i] in multiset(items);
      var j :| 0 <= j < |rows| && rows[j] == items[i];
    }
    SumCaloriesNonNegative(items);
  }

  /** Rows that all pass `foodItemSchema` give a summary that passes `dailyCaloriesSummarySchema`. */
  lemma SummarySatisfiesSchema(rows: seq<Row>, date: string)
    requires IsCalendarLabel(date)
    requires forall i :: 0 <= i < |rows| ==> FoodItemSchema(rows[i])
    ensures DailyCaloriesSummarySchema(GetDailyCaloriesSummary(rows, date))
  {
    var items := GetDailyCaloriesSummary(rows, date).foodItems;
    forall i | 0 <= i < |items|
      ensures FoodItemSchema(items[i])
    {
      assert items[i] in multiset(items);
      var j :| 0 <= j < |rows| && rows[j] == items[i];
    }
    SummaryOfValidItems(date, items);
  }

  /**
   * The column itself allows negative calories; one such row on the day makes
   * the handler's result fail its own output schema.
   */
  lemma NegativeRowBreaksSchema(date: string, x: Row)
    requires IsCalendarLabel(date)
    requires LabelRange(date).start <= x.loggedAt < LabelRange(date).end
    requires x.calories < 0
    ensures !DailyCaloriesSummarySchema(GetDailyCaloriesSummary([x], date))
  {
    var items := GetDailyCaloriesSummary([x], date).foodItems;
    EmptySummary([], date);
    SameDayRowCounted([], x, date);
    assert [] + [x] == [x];
    assert x in multiset(items);
    var i :| 0 <= i < |items| && items[i] == x;
    FoodItemSchemaOfRow(x);
  }
}
