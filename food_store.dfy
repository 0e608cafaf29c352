/**
 * The `food_items` table: columns `id serial primary key`, `name text not
 * null`, `calories integer not null` and `logged_at timestamp default now()
 * not null`.  The application only ever inserts into it, so it is modelled
 * as an append-only sequence of rows with the serial sequence's next value
 * beside it.
 */
module FoodStore {
  import opened Wrappers
  import opened EcmaTime

  /** The range of a PostgreSQL `integer` (and of a `serial` sequence). */
  const INT4_MIN: int := -2147483648
  const INT4_MAX: int := 2147483647

  /**
   * The range of a PostgreSQL `timestamp`, in milliseconds since the epoch:
   * from 4714-11-24 BC (Julian day 0) up to, not including, 294277-01-01.
   */
  const TIMESTAMP_MIN: int := -210866803200000
  const TIMESTAMP_END: int := 9224318016000000

  /** A time the `timestamp` column can hold. */
  predicate InTimestampRange(t: int)
  {
    TIMESTAMP_MIN <= t < TIMESTAMP_END
  }

  /**
   * The limits are the midnights starting 4714-11-24 BC (astronomical year
   * -4713) and 294277-01-01, and every JavaScript time value is below the
   * upper one.
   */
  lemma TimestampLimits(t: TimeValue)
    ensures TIMESTAMP_MIN == MakeDate(DayNumber(Date(-4713, 11, 24)), 0)
    ensures TIMESTAMP_END == MakeDate(DayNumber(Date(294277, 1, 1)), 0)
    ensures InTimestampRange(t) <==> TIMESTAMP_MIN <= t
  {
  }

  /** 0001-01-01T00:00:00.000Z and 10000-01-01T00:00:00.000Z. */
  const FIRST_STORABLE: int := -62135596800000
  const END_STORABLE: int := 253402300800000

  /**
   * A `logged_at` the insert can store.  The driver sends a `Date` as its
   * `toISOString()` text, and PostgreSQL reads that text only for UTC years
   * 1 to 9999: it has no year zero, and the signed six-digit years written
   * outside 0..9999 do not parse as a year.
   */
  predicate StorableTime(t: TimeValue)
  {
    1 <= UtcDate(t).year <= 9999
  }

  /**
   * The storable times are the instants from 0001-01-01 up to, not
   * including, 10000-01-01 (UTC), all of which `timestamp` can hold.
   */
  lemma StorableTimeBounds(t: TimeValue)
    ensures StorableTime(t) <==> FIRST_STORABLE <= t < END_STORABLE
    ensures StorableTime(t) ==> InTimestampRange(t)
  {
    var d := UtcDate(t);
    DayNumberWithinYear(d);
    YearFromOne(Day(t), d.year);
    YearBelowTenThousand(Day(t), d.year);
  }

  /**
   * 0000-01-01T00:00:00.000Z and 10000-01-01T00:00:00.000Z are refused, the
   * last millisecond before the latter and 0001-01-01T00:00:00.000Z are not.
   */
  lemma StorableTimeEdges()
    ensures !StorableTime(-62167219200000)
    ensures StorableTime(FIRST_STORABLE)
    ensures StorableTime(END_STORABLE - 1) && !StorableTime(END_STORABLE)
  {
    StorableTimeBounds(-62167219200000);
    StorableTimeBounds(FIRST_STORABLE);
    StorableTimeBounds(END_STORABLE - 1);
    StorableTimeBounds(END_STORABLE);
  }

  /** A day lies in year 1 or later exactly when it is not before 0001-01-01. */
  lemma YearFromOne(n: int, y: int)
    requires DayFromYear(y) <= n < DayFromYear(y + 1)
    ensures 1 <= y <==> -719162 <= n
  {
    assert DayFromYear(1) == -719162;
    if 1 <= y {
      DayFromYearMonotone(1, y);
    } else {
      DayFromYearMonotone(y + 1, 1);
    }
  }

  /** A day lies in year 9999 or earlier exactly when it is before 10000-01-01. */
  lemma YearBelowTenThousand(n: int, y: int)
    requires DayFromYear(y) <= n < DayFromYear(y + 1)
    ensures y <= 9999 <==> n < 2932897
  {
    assert DayFromYear(10000) == 2932897;
    if y <= 9999 {
      DayFromYearMonotone(y + 1, 10000);
    } else {
      DayFromYearMonotone(10000, y);
    }
  }

  /** A stored row.  Every column is NOT NULL, so every field is always present. */
  datatype Row = Row(id: int, name: string, calories: int, loggedAt: TimeValue)

  /** Why PostgreSQL refuses an insert. */
  datatype InsertError =
    | NulInName            // a `text` value cannot hold U+0000 (SQLSTATE 22021)
    | CaloriesOutOfRange   // the value does not fit the `integer` column
    | TimestampOutOfRange  // the given `logged_at` is not a `StorableTime`
    | SerialExhausted      // the `serial` sequence has passed its maximum

  /**
   * The ids a serial column hands out: positive, below the sequence's next
   * value, and increasing in insertion order (so no two rows share one).
   */
  ghost predicate SerialIds(rows: seq<Row>, nextId: int)
  {
    && 1 <= nextId
    && (forall i :: 0 <= i < |rows| ==> 1 <= rows[i].id < nextId)
    && (forall i, j :: 0 <= i < j < |rows| ==> rows[i].id < rows[j].id)
  }

  /** `select ... where id = ?`, in storage order. */
  function RowsWithId(rows: seq<Row>, id: int): (r: seq<Row>)
    ensures forall x :: x in r <==> x in rows && x.id == id
    ensures |r| <= |rows|
    ensures (forall x :: x in rows ==> x.id != id) ==> r == []
  {
    if rows == [] then []
    else RowsWithId(rows[..|rows| - 1], id) + (if rows[|rows| - 1].id == id then [rows[|rows| - 1]] else [])
  }

  /** The primary key holds: at most one row has a given id. */
  lemma {:induction false} AtMostOneRowWithId(rows: seq<Row>, nextId: int, id: int)
    requires SerialIds(rows, nextId)
    ensures |RowsWithId(rows, id)| <= 1
  {
    if rows != [] {
      var init := rows[..|rows| - 1];
      AtMostOneRowWithId(init, nextId, id);
      var last := rows[|rows| - 1];
      forall x | x in init
        ensures x.id != last.id
      {
        var i :| 0 <= i < |init| && init[i] == x;
        assert rows[i] == x;
      }
    }
  }

  /** Appending a row with the sequence's next value keeps the ids serial. */
  lemma AppendKeepsSerialIds(rows: seq<Row>, nextId: int, r: Row)
    requires SerialIds(rows, nextId)
    requires r.id == nextId
    ensures SerialIds(rows + [r], nextId + 1)
  {
  }

  /** The id handed to a new row belongs to that row alone. */
  lemma {:induction false} FreshIdSelectsNewRow(rows: seq<Row>, nextId: int, r: Row)
    requires SerialIds(rows, nextId)
    requires r.id == nextId
    ensures forall x :: x in rows ==> x.id != r.id
    ensures RowsWithId(rows + [r], r.id) == [r]
  {
    var all := rows + [r];
    assert all[..|all| - 1] == rows;
    forall x | x in rows
      ensures x.id != r.id
    {
      var i :| 0 <= i < |rows| && rows[i] == x;
    }
  }

  class FoodItemsTable {
    /** The rows in insertion order. */
    var rows: seq<Row>
    /** The value the `serial` sequence of `id` hands out next. */
    var nextId: int

    ghost predicate Valid()
      reads this
    {
      SerialIds(rows, nextId)
    }

    /** An empty table with a fresh sequence, which starts at 1. */
    constructor ()
      ensures Valid()
      ensures rows == [] && nextId == 1
    {
      rows := [];
      nextId := 1;
    }

    /**
     * `insert into food_items (name, calories[, logged_at])`: takes the next
     * serial id and stores `logged_at`, or the insert time `now` when it is
     * omitted.  Existing rows are never touched.  The server converts the
     * bound values in column order (name, calories, logged_at) before the
     * column default `nextval` runs, so that is the order of the refusals.
     */
    method Insert(name: string, calories: int, loggedAt: Option<TimeValue>, now: TimeValue)
      returns (result: Result<Row, InsertError>)
      requires Valid()
      modifies this
      ensures Valid()
      ensures result.Ok? <==>
        && '\0' !in name
        && INT4_MIN <= calories <= INT4_MAX
        && (loggedAt.Some? ==> StorableTime(loggedAt.value))
        && old(nextId) <= INT4_MAX
      ensures '\0' in name ==> result == Err(NulInName)
      ensures '\0' !in name && !(INT4_MIN <= calories <= INT4_MAX) ==> result == Err(CaloriesOutOfRange)
      ensures '\0' !in name && INT4_MIN <= calories <= INT4_MAX && loggedAt.Some? && !StorableTime(loggedAt.value) ==>
        result == Err(TimestampOutOfRange)
      ensures result == Err(SerialExhausted) <==>
        && '\0' !in name
        && INT4_MIN <= calories <= INT4_MAX
        && (loggedAt.Some? ==> StorableTime(loggedAt.value))
        && old(nextId) > INT4_MAX
      ensures result.Ok? ==>
        && result.value == Row(old(nextId), name, calories, if loggedAt.Some? then loggedAt.value else now)
        && rows == old(rows) + [result.value]
        && nextId == old(nextId) + 1
      ensures result.Ok? ==> 0 < result.value.id && forall x :: x in old(rows) ==> x.id != result.value.id
      ensures result.Ok? ==> RowsWithId(rows, result.value.id) == [result.value]
      ensures result.Err? ==> rows == old(rows) && nextId == old(nextId)
    {
      if '\0' in name {
        result := Err(NulInName);
      } else if !(INT4_MIN <= calories <= INT4_MAX) {
        result := Err(CaloriesOutOfRange);
      } else if loggedAt.Some? && !StorableTime(loggedAt.value) {
        result := Err(TimestampOutOfRange);
      } else if nextId > INT4_MAX {
        result := Err(SerialExhausted);
      } else {
        var stamp := if loggedAt.Some? then loggedAt.value else now;
        var row := Row(nextId, name, calories, stamp);
        AppendKeepsSerialIds(rows, nextId, row);
        rows, nextId := rows + [row], nextId + 1;
        result := Ok(row);
      }
    }
  }
}
