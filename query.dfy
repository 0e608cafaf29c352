/**
 * The pieces of the three read handlers' queries, over a snapshot of the
 * `food_items` rows: the half-open `where` filter on `logged_at`, `orderBy
 * logged_at`, and the `reduce` that totals the calories.
 */
module Query {
  import opened FoodStore

  /** `and(gte(logged_at, start), lt(logged_at, end))`. */
  predicate InRange(x: Row, start: int, end: int)
  {
    start <= x.loggedAt < end
  }

  /**
   * `select ... where start <= logged_at < end` without an `orderBy`.  The
   * database may return the rows in any order; this model keeps storage order.
   */
  function Where(rows: seq<Row>, start: int, end: int): seq<Row>
  {
    if rows == [] then []
    else Where(rows[..|rows| - 1], start, end) + if InRange(rows[|rows| - 1], start, end) then [rows[|rows| - 1]] else []
  }

  /** The filter keeps every row in the range as often as it is stored, and no other row. */
  lemma {:induction false} WhereCounts(rows: seq<Row>, start: int, end: int)
    ensures forall x :: multiset(Where(rows, start, end))[x] == if InRange(x, start, end) then multiset(rows)[x] else 0
  {
    if rows != [] {
      var init, last := rows[..|rows| - 1], rows[|rows| - 1];
      assert rows == init + [last];
      WhereCounts(init, start, end);
    }
  }

  /** Appending a row outside the range does not change what the filter selects. */
  lemma WhereSkipsRowOutside(rows: seq<Row>, x: Row, start: int, end: int)
    requires !InRange(x, start, end)
    ensures Where(rows + [x], start, end) == Where(rows, start, end)
  {
    assert (rows + [x])[..|rows|] == rows;
  }

  /** Appending a row inside the range appends it to what the filter selects. */
  lemma WhereKeepsRowInside(rows: seq<Row>, x: Row, start: int, end: int)
    requires InRange(x, start, end)
    ensures Where(rows + [x], start, end) == Where(rows, start, end) + [x]
  {
    assert (rows + [x])[..|rows|] == rows;
  }

  predicate SortedByLoggedAt(s: seq<Row>)
  {
    forall i, j :: 0 <= i < j < |s| ==> s[i].loggedAt <= s[j].loggedAt
  }

  /** Places x after every row logged at or before it. */
  function InsertByLoggedAt(x: Row, s: seq<Row>): (r: seq<Row>)
    requires SortedByLoggedAt(s)
    ensures SortedByLoggedAt(r)
    ensures multiset(r) == multiset(s) + multiset{x}
  {
    if s == [] then [x]
    else if x.loggedAt < s[0].loggedAt then [x] + s
    else
      var rest := InsertByLoggedAt(x, s[1..]);
      assert s == [s[0]] + s[1..];
      HeadPrecedesInsert(s, x, rest);
      [s[0]] + rest
  }

  /** What is left after the first row, plus x, is logged no earlier than the first row. */
  lemma HeadPrecedesInsert(s: seq<Row>, x: Row, rest: seq<Row>)
    requires SortedByLoggedAt(s) && s != []
    requires s[0].loggedAt <= x.loggedAt
    requires multiset(rest) == multiset(s[1..]) + multiset{x}
    ensures forall k :: 0 <= k < |rest| ==> s[0].loggedAt <= rest[k].loggedAt
  {
    forall k | 0 <= k < |rest|
      ensures s[0].loggedAt <= rest[k].loggedAt
    {
      var y := rest[k];
      assert y in multiset(rest);
      if y != x {
        assert y in multiset(s[1..]);
        var i :| 0 <= i < |s[1..]| && s[1..][i] == y;
        assert s[i + 1] == y;
      }
    }
  }

  /**
   * `orderBy(logged_at)`: the rows in ascending `logged_at` order.  Rows logged
   * at the same instant come back in some order the database picks; this
   * model keeps them in the order given.
   */
  function OrderByLoggedAt(s: seq<Row>): (r: seq<Row>)
    ensures SortedByLoggedAt(r)
    ensures multiset(r) == multiset(s)
  {
    if s == [] then []
    else
      assert s == s[..|s| - 1] + [s[|s| - 1]];
      InsertByLoggedAt(s[|s| - 1], OrderByLoggedAt(s[..|s| - 1]))
  }

  /** `reduce((sum, item) => sum + item.calories, 0)`: a left fold from 0. */
  function SumCalories(items: seq<Row>): int
  {
    if items == [] then 0 else SumCalories(items[..|items| - 1]) + items[|items| - 1].calories
  }

  lemma {:induction false} SumCaloriesAppend(a: seq<Row>, b: seq<Row>)
    ensures SumCalories(a + b) == SumCalories(a) + SumCalories(b)
    decreases |b|
  {
    if b != [] {
      var ab := a + b;
      assert ab[..|ab| - 1] == a + b[..|b| - 1];
      assert ab[|ab| - 1] == b[|b| - 1];
      SumCaloriesAppend(a, b[..|b| - 1]);
      assert SumCalories(ab) == SumCalories(a + b[..|b| - 1]) + b[|b| - 1].calories;
    } else {
      assert a + b == a;
    }
  }

  /** Appending a row to the fold adds its calories. */
  lemma SumCaloriesSnoc(a: seq<Row>, x: Row)
    ensures SumCalories(a + [x]) == SumCalories(a) + x.calories
  {
    assert (a + [x])[..|a|] == a;
  }

  /** Taking one row out of a sequence takes its calories out of the total. */
  lemma SumCaloriesRemoveAt(b: seq<Row>, i: int)
    requires 0 <= i < |b|
    ensures SumCalories(b) == SumCalories(b[..i] + b[i + 1..]) + b[i].calories
  {
    var b1, x, b2 := b[..i], b[i], b[i + 1..];
    assert b == (b1 + [x]) + b2 by {
      assert b == b1 + b[i..];
      assert b[i..] == [x] + b2;
    }
    calc {
      SumCalories(b);
      SumCalories((b1 + [x]) + b2);
      { SumCaloriesAppend(b1 + [x], b2); }
      SumCalories(b1 + [x]) + SumCalories(b2);
      { SumCaloriesSnoc(b1, x); }
      SumCalories(b1) + x.calories + SumCalories(b2);
      { SumCaloriesAppend(b1, b2); }
      SumCalories(b1 + b2) + x.calories;
    }
  }

  /** Taking one row out of a sequence takes one copy of it out of its multiset. */
  lemma MultisetRemoveAt(b: seq<Row>, i: int)
    requires 0 <= i < |b|
    ensures multiset(b[..i] + b[i + 1..]) == multiset(b) - multiset{b[i]}
  {
    assert b == b[..i] + [b[i]] + b[i + 1..];
  }

  /** The total does not depend on the order the rows come back in. */
  lemma {:induction false} SumCaloriesPermutation(a: seq<Row>, b: seq<Row>)
    requires multiset(a) == multiset(b)
    ensures SumCalories(a) == SumCalories(b)
    decreases |a|
  {
    if a == [] {
      assert |b| == |multiset(b)| == 0;
    } else {
      var init, x := a[..|a| - 1], a[|a| - 1];
      assert a == init + [x];
      assert x in multiset(b);
      var i :| 0 <= i < |b| && b[i] == x;
      SumCaloriesRemoveAt(b, i);
      MultisetRemoveAt(b, i);
      SumCaloriesPermutation(init, b[..i] + b[i + 1..]);
    }
  }

  /** With no negative calories among the rows, the total is not negative. */
  lemma {:induction false} SumCaloriesNonNegative(items: seq<Row>)
    requires forall i :: 0 <= i < |items| ==> items[i].calories >= 0
    ensures SumCalories(items) >= 0
  {
    if items != [] {
      SumCaloriesNonNegative(items[..|items| - 1]);
    }
  }

  /** The calories logged in [start, end) over the whole store, counted row by row. */
  function CaloriesInRange(rows: seq<Row>, start: int, end: int): int
  {
    if rows == [] then 0
    else (if InRange(rows[0], start, end) then rows[0].calories else 0) + CaloriesInRange(rows[1..], start, end)
  }

  /** Totalling the filtered rows gives the calories logged in the range. */
  lemma {:induction false} SumOfWhere(rows: seq<Row>, start: int, end: int)
    ensures SumCalories(Where(rows, start, end)) == CaloriesInRange(rows, start, end)
    decreases |rows|
  {
    if rows != [] {
      var init, last := rows[..|rows| - 1], rows[|rows| - 1];
      SumOfWhere(init, start, end);
      CaloriesInRangeSnoc(init, last, start, end);
      assert rows == init + [last];
      var tail := if InRange(last, start, end) then [last] else [];
      SumCaloriesAppend(Where(init, start, end), tail);
      assert SumCalories(tail) == if InRange(last, start, end) then last.calories else 0 by {
        if tail != [] { assert tail[..0] == []; }
      }
    }
  }

  /** CaloriesInRange counts a row appended at the end like any other. */
  lemma {:induction false} CaloriesInRangeSnoc(rows: seq<Row>, x: Row, start: int, end: int)
    ensures CaloriesInRange(rows + [x], start, end)
         == CaloriesInRange(rows, start, end) + (if InRange(x, start, end) then x.calories else 0)
    decreases |rows|
  {
    if rows != [] {
      assert (rows + [x])[1..] == rows[1..] + [x];
      CaloriesInRangeSnoc(rows[1..], x, start, end);
    } else {
      assert [x][1..] == [];
    }
  }
}
