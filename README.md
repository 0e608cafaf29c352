# Calorie tracker: the daily aggregation slice

This project models the part of the calorie tracker's server that turns a day
into a range of instants, picks the stored food entries logged inside it,
orders them or adds up their calories, and returns them to the client. It also
models the zod validators that guard these routes and the append-only
`food_items` table the handlers read.

- **Time.** Time is an ECMAScript time value: milliseconds since the epoch
  (section 21.4.1 of ECMA-262).
  - `EcmaTime` holds the calendar arithmetic of that section: MakeDay, MakeDate,
    year and month from a day number, and the next calendar date.
  - `IsoDate` holds the `YYYY-MM-DD` label and the date part of
    `toISOString`.
- **Store.** `FoodStore.FoodItemsTable` is a class whose `Insert` appends one
  row. The row gets the serial sequence's next id, and `logged_at` defaults to
  the insert time. PostgreSQL refuses a name holding U+0000, a calorie count
  outside `integer`, a `logged_at` whose `toISOString` text it cannot read
  (UTC years outside 1 to 9999) and an exhausted sequence, and the model does
  too.
- **Handlers.** The three read handlers are pure functions over a snapshot of
  the rows.
  - `FoodItemsByDate.GetFoodItemsByDate` is `getFoodItemsByDate`.
  - `DailyCaloriesSummaryHandler.GetDailyCaloriesSummary` is
    `getDailyCaloriesSummary`.
  - `TodaySummaryHandler.GetTodaySummary` is `getTodaySummary`. It takes the
    clock reading `now` and the server zone's fixed UTC offset as parameters.

  The building blocks they share live in `Query`: the half-open `where`, the
  `orderBy`, and the `reduce` total. Since the handlers are functions of a
  snapshot, a query cannot change the store.
- **Validators.** The zod validators are predicates and validating functions in
  `Schema`.

Each operation is tied to an independent statement of what it should compute:
- The filter is characterised by multiset counts.
- The ordered result is characterised by sortedness and permutation.
- A recursive, row-by-row count (`CaloriesInRange`) is the reference for the
  total.
- Calendar conversions come with round trips: date to day number and back,
  and label to date and back.

The explicit-date handlers end their range at `T23:59:59.999Z` and exclude
that bound. So the last millisecond of every day belongs to no day. The model
exposes this gap (`LastMillisecondInNoDay`, `ConsecutiveDaysLeaveGap`,
`LabelOfInstant`). The today handler's range ends at the next local midnight
and has no gap (`NextRangeStartsAtEnd`). It builds that range with the `Date`
constructor from separate fields, which reads a local year from 0 to 99 as
1900 + year; in those years the range lies in the twentieth century and misses
`now` (`TodayRange`, `YearOneConstructed`, `TwoDigitYearSkipsNow`). Its label
is the UTC date of `now`, which can differ from the local day it summed
(`LabelIsLocalDateIff`, `LabelDiffersFromLocalDay`).

Source paths below are relative to the repository root.

## Model

| member | source | states |
|---|---|---|
| EcmaTime.CivilFromDays | server/src/handlers/get_today_summary.ts:11 | the year, month and date of a day number form a real calendar date whose day number is that day number (getFullYear/getMonth/getDate) |
| EcmaTime.CivilFromDayNumber | server/src/handlers/get_today_summary.ts:11-12 | converting a calendar date to its day number and back gives the same date |
| EcmaTime.DayNumberInjective | server/src/handlers/get_food_items_by_date.ts:10 | two calendar dates with the same day number are the same date, so a label names one day |
| EcmaTime.NextDate | server/src/handlers/get_today_summary.ts:12 | the date after a calendar date is a calendar date whose day number is one more, rolling over month and year ends |
| EcmaTime.UtcDate | server/src/handlers/get_today_summary.ts:29 | the UTC calendar date of a time value is a calendar date containing its day, with a year of at most six digits |
| EcmaTime.MakeFullYear | server/src/handlers/get_today_summary.ts:11-12 | the `Date` constructor's reading of a year given as a field: 0 to 99 become 1900 to 1999; what it implies is stated by `EcmaTime.FullYearDay` |
| EcmaTime.FullYearDay | server/src/handlers/get_today_summary.ts:11-12 | the day the constructor builds from a calendar date's fields is the date's own day number for years outside 0 to 99, and for those years a later day that lies in year 1900 + year |
| EcmaTime.YearOfDayNumber | server/src/handlers/get_today_summary.ts:11 | a day between the first days of year y and year y + 1 has calendar year y |
| EcmaTime.MonthDayInAnyYear | server/src/handlers/get_today_summary.ts:11-12 | the month and day of a calendar date, placed in any year, fall inside that year |
| IsoDate.DecimalValueOfPad | server/src/handlers/get_today_summary.ts:29 | reading back a zero-padded number gives the number |
| IsoDate.PadOfDecimalValue | server/src/handlers/get_food_items_by_date.ts:10 | a digit string is the zero-padded form of its value |
| IsoDate.ParseLabel | server/src/handlers/get_food_items_by_date.ts:10 | the fields of a `YYYY-MM-DD` label are a 4-digit year and 2-digit month and day |
| IsoDate.DatePartShape | server/src/handlers/get_today_summary.ts:29 | the date part of `toISOString` is a `YYYY-MM-DD` label exactly when the year has four digits |
| IsoDate.ParseDatePart | server/src/handlers/get_today_summary.ts:29 | formatting a date with a four-digit year and parsing it back gives the date |
| IsoDate.DatePartOfLabel | server/src/handlers/get_daily_calories_summary.ts:10-28 | parsing a label and formatting the date again gives the label verbatim |
| IsoDate.BeforeFirst | server/src/handlers/get_today_summary.ts:29 | `split('T')[0]` is a prefix free of `T` that stops at the first `T` |
| IsoDate.DateOfIsoString | server/src/handlers/get_today_summary.ts:29 | `toISOString().split('T')[0]` is the date part of the UTC date of the instant |
| IsoDate.ToIsoString | server/src/handlers/get_today_summary.ts:29 | `toISOString` of a time value: its UTC date part, `T` and the time of day; `IsoDate.DateOfIsoString` states what the handler takes from it |
| FoodStore.RowsWithId | server/src/db/schema.ts:5 | selecting by id returns exactly the rows holding that id, none when no row holds it |
| FoodStore.AtMostOneRowWithId | server/src/db/schema.ts:5 | with serial ids at most one row has a given id (primary key) |
| FoodStore.AppendKeepsSerialIds | server/src/db/schema.ts:5 | appending a row with the sequence's next value keeps ids positive, below the next value and increasing |
| FoodStore.FreshIdSelectsNewRow | server/src/db/schema.ts:5 | the next serial id is held by no stored row, and selecting it after the append yields the new row alone |
| FoodStore.FoodItemsTable.constructor | server/src/db/schema.ts:4-9 | a new table is empty and its sequence starts at 1 |
| FoodStore.FoodItemsTable.Insert | server/src/db/schema.ts:4-9 | succeeds iff the name has no U+0000 (`text`), calories fit `integer`, a given `logged_at` is a `StorableTime` (UTC year 1 to 9999, the years whose `toISOString` text PostgreSQL reads) and the sequence is not exhausted; the refusals are reported in that order, with `SerialExhausted` exactly when all values convert but the sequence has passed its maximum; appends exactly one row with the next id, the given name and calories, and `logged_at` as given or the insert time; the id is positive, fresh and reads back the new row; a failed insert changes nothing |
| FoodStore.TimestampLimits | server/src/db/schema.ts:8 | `timestamp` holds the times from 4714-11-24 BC up to 294277-01-01, and every JavaScript time value is below the upper limit |
| FoodStore.StorableTimeBounds | server/src/db/schema.ts:8 | a `logged_at` is storable iff it lies from 0001-01-01T00:00Z up to, not including, 10000-01-01T00:00Z, and every storable time is within `timestamp`'s range |
| FoodStore.StorableTimeEdges | server/src/db/schema.ts:8 | 0000-01-01T00:00Z and 10000-01-01T00:00Z are refused, while 0001-01-01T00:00Z and the millisecond before 10000-01-01 are stored |
| Query.WhereCounts | server/src/handlers/get_food_items_by_date.ts:16-21 | the filter keeps every row with start <= logged_at < end as often as it is stored, and no other row |
| Query.Where | server/src/handlers/get_food_items_by_date.ts:16-21 | the `where(and(gte, lt))` filter over the stored rows; its meaning is stated by `Query.WhereCounts` |
| Query.WhereSkipsRowOutside | server/src/handlers/get_daily_calories_summary.ts:16-21 | a row outside the range changes nothing the filter returns |
| Query.WhereKeepsRowInside | server/src/handlers/get_daily_calories_summary.ts:16-21 | a row inside the range is added to what the filter returns |
| Query.InsertByLoggedAt | server/src/handlers/get_food_items_by_date.ts:22 | inserting into a sorted list keeps it sorted and adds exactly that row |
| Query.OrderByLoggedAt | server/src/handlers/get_food_items_by_date.ts:22 | `orderBy(logged_at)` returns a permutation of its input sorted ascending by `logged_at` |
| Query.SumCaloriesAppend | server/src/handlers/get_daily_calories_summary.ts:25 | the fold of a concatenation is the sum of the folds |
| Query.SumCalories | server/src/handlers/get_daily_calories_summary.ts:25 | the `reduce` total from 0; `Query.SumOfWhere` ties it to the row-by-row count and `Query.SumCaloriesPermutation` to any order of the rows |
| Query.SumCaloriesSnoc | server/src/handlers/get_daily_calories_summary.ts:25 | one more row adds its calories to the fold |
| Query.SumCaloriesRemoveAt | server/src/handlers/get_daily_calories_summary.ts:25 | removing one row removes its calories from the fold |
| Query.SumCaloriesPermutation | server/src/handlers/get_daily_calories_summary.ts:25 | the fold does not depend on the order the rows come back in |
| Query.SumCaloriesNonNegative | server/src/handlers/get_daily_calories_summary.ts:25 | the fold of rows with nonnegative calories is nonnegative |
| Query.SumOfWhere | server/src/handlers/get_daily_calories_summary.ts:14-25 | the fold of the filtered rows equals the row-by-row count of calories in the range |
| Query.CaloriesInRangeSnoc | server/src/handlers/get_daily_calories_summary.ts:25 | the row-by-row count treats an appended row like any other |
| Schema.DatePatternMatchesLabelShape | server/src/schema.ts:24 | `/^\d{4}-\d{2}-\d{2}$/` matches exactly the ten-character digit/hyphen shapes |
| Schema.MatchesAnchored | server/src/schema.ts:24 | an anchored match of fixed repetitions of character classes; for `DATE_PATTERN` `Schema.DatePatternMatchesLabelShape` states what it accepts |
| Schema.ValidateDateInput | server/src/schema.ts:23-25 | the date input is accepted iff it has the `YYYY-MM-DD` shape, passed through unchanged, else the format error |
| Schema.DatePatternIgnoresCalendar | server/src/schema.ts:24 | `2024-13-45` and `0000-00-00` pass the pattern without being calendar dates; `2024-01-15` is both |
| Schema.DatePatternRefusesOtherShapes | server/src/schema.ts:24 | single-digit fields and trailing text are refused |
| Schema.NumberIssues | server/src/schema.ts:17 | a number has no issue iff it is an integer >= 0; each failed check is reported |
| Schema.ValidateCreateInput | server/src/schema.ts:15-18 | the create input is accepted iff the name has at least one character and calories are an integer >= 0; each failure is reported |
| Schema.CreateInputBoundaries | server/src/schema.ts:16-17 | a blank name with 0 calories passes; 95.5 and -1 fail; an empty name with -0.5 reports all three issues in order |
| Schema.FoodItemSchemaOfRow | server/src/schema.ts:5-10 | a stored row satisfies `foodItemSchema` iff its calories are nonnegative |
| Schema.FoodItemSchema | server/src/schema.ts:5-10 | `foodItemSchema` of a stored row; `Schema.FoodItemSchemaOfRow` states when it holds |
| Schema.SummaryOfValidItems | server/src/schema.ts:30-34 | a summary totalling valid food items satisfies `dailyCaloriesSummarySchema` |
| Schema.DailyCaloriesSummarySchema | server/src/schema.ts:30-34 | `dailyCaloriesSummarySchema`; `Schema.SummaryOfValidItems` and `DailyCaloriesSummaryHandler.NegativeRowBreaksSchema` state when it holds |
| FoodItemsByDate.LabelRange | server/src/handlers/get_food_items_by_date.ts:10-11 | start is UTC midnight of the labelled date; end is start + 86399999, one millisecond before the next date's midnight |
| FoodItemsByDate.GetFoodItemsByDate | server/src/handlers/get_food_items_by_date.ts:10-23 | the result is sorted ascending by `logged_at` and holds every stored row with start <= logged_at < end and nothing else |
| FoodItemsByDate.MidnightBoundaries | server/src/handlers/get_food_items_by_date.ts:18-19 | a row at the date's midnight is returned; a row at the next date's midnight is not |
| FoodItemsByDate.LastMillisecondInNoDay | server/src/handlers/get_food_items_by_date.ts:10-19 | a row at 23:59:59.999Z of any date is returned for no date at all |
| FoodItemsByDate.ConsecutiveDaysLeaveGap | server/src/handlers/get_food_items_by_date.ts:10-11 | the next date's range starts one millisecond after this date's range ends |
| FoodItemsByDate.LabelOfInstant | server/src/handlers/get_food_items_by_date.ts:10-19 | an instant is inside the range of its own UTC date's label iff it is not the last millisecond of the day |
| FoodItemsByDate.EmptyDay | server/src/handlers/get_food_items_by_date.ts:14-25 | a date with no rows in range yields the empty list |
| FoodItemsByDate.SortedPermutationIsUnique | server/src/handlers/get_food_items_by_date.ts:22 | two ascending orderings of the same rows with distinct timestamps are equal |
| FoodItemsByDate.ItemsAreOrderedSelection | server/src/handlers/get_food_items_by_date.ts:14-23 | with distinct timestamps the result is the in-range rows in time order, whatever the storage order |
| FoodItemsByDate.Jan15Label | server/src/handlers/get_food_items_by_date.ts:10-11 | `2024-01-15` is a calendar label whose range starts at 1705276800000 |
| FoodItemsByDate.IncreasingTriple | server/src/handlers/get_food_items_by_date.ts:22 | three rows with increasing timestamps are in order |
| FoodItemsByDate.WhereKeepsThree | server/src/handlers/get_food_items_by_date.ts:16-21 | three rows in range are all kept, in storage order |
| FoodItemsByDate.WhereKeepsTwo | server/src/handlers/get_food_items_by_date.ts:16-21 | of three rows, the two in range are kept and the third is dropped |
| FoodItemsByDate.OrderedByTime | server/src/handlers/get_food_items_by_date.ts:22 | rows stored as dinner, breakfast, lunch come back as breakfast, lunch, dinner |
| FoodItemsByDate.DayBoundaryScenario | server/src/handlers/get_food_items_by_date.ts:18-19 | rows at 00:00:00, 23:59:59 and the next midnight yield the first two, in order |
| DailyCaloriesSummaryHandler.GetDailyCaloriesSummary | server/src/handlers/get_daily_calories_summary.ts:10-31 | the date is the label verbatim; the rows are exactly those with start <= logged_at < end; the total is their calories counted row by row |
| DailyCaloriesSummaryHandler.SummaryAgreesWithItemsByDate | server/src/handlers/get_daily_calories_summary.ts:14-22 | the summary lists the same multiset of rows as `getFoodItemsByDate` for the label, and totals them |
| DailyCaloriesSummaryHandler.EmptySummary | server/src/handlers/get_daily_calories_summary.ts:25 | with no rows in range the summary is the label, 0 and an empty list |
| DailyCaloriesSummaryHandler.OtherDayRowIgnored | server/src/handlers/get_daily_calories_summary.ts:17-20 | a row on another day changes neither the date, the total nor the rows listed, in whatever order they come |
| DailyCaloriesSummaryHandler.SameDayRowCounted | server/src/handlers/get_daily_calories_summary.ts:17-25 | a row on the day is listed once more, in whatever order, and its calories are added to the total |
| DailyCaloriesSummaryHandler.LastMillisecondUncounted | server/src/handlers/get_daily_calories_summary.ts:11-19 | a row at 23:59:59.999Z of the date changes neither the total nor the rows of its own summary |
| DailyCaloriesSummaryHandler.ThreeItemsScenario | server/src/handlers/get_daily_calories_summary.ts:25 | 95 + 105 + 62 calories on the day give a total of 262, with the three rows listed in some order |
| DailyCaloriesSummaryHandler.SumCaloriesOfThree | server/src/handlers/get_daily_calories_summary.ts:25 | the fold of three rows is the sum of their calories |
| DailyCaloriesSummaryHandler.TotalNonNegative | server/src/handlers/get_daily_calories_summary.ts:25 | a store with nonnegative calories gives a nonnegative total |
| DailyCaloriesSummaryHandler.SummarySatisfiesSchema | server/src/schema.ts:30-34 | valid stored rows give a summary valid under `dailyCaloriesSummarySchema` |
| DailyCaloriesSummaryHandler.NegativeRowBreaksSchema | server/src/db/schema.ts:7 | the column has no sign constraint: a negative-calorie row on the day makes the summary fail the schema |
| TodaySummaryHandler.LocalDate | server/src/handlers/get_today_summary.ts:10-11 | the local year, month and date of now form a calendar date whose day is the day of now's local time |
| TodaySummaryHandler.TodayRange | server/src/handlers/get_today_summary.ts:10-12 | the range is one day wide and starts at a local midnight; for a local year outside 0 to 99 it runs from the local midnight of now's local date to that of the next date, so start <= now < end; for a local year from 0 to 99 it lies in year 1900 + year, after now |
| TodaySummaryHandler.SameRangeAllDay | server/src/handlers/get_today_summary.ts:11-12 | every instant of today's range has the same range; it has now's local date too, unless now's local year has two digits, and then its local year is 1900 + that year |
| TodaySummaryHandler.NextRangeStartsAtEnd | server/src/handlers/get_today_summary.ts:11-20 | the range of the instant where today's ends starts right there iff that instant's local year is outside 0 to 99; for a now whose local year is outside 0 to 99 that instant is on the next local date |
| TodaySummaryHandler.LocalDateAtMidnight | server/src/handlers/get_today_summary.ts:11-12 | an instant at the local midnight starting a date has that local date |
| TodaySummaryHandler.GetTodaySummary | server/src/handlers/get_today_summary.ts:10-35 | the date is the UTC date of now; the rows are exactly those in today's local range; the total is their calories counted row by row |
| TodaySummaryHandler.EmptyToday | server/src/handlers/get_today_summary.ts:26 | with nothing logged today the total is 0 and the list is empty |
| TodaySummaryHandler.LoggedEarlierTodayCounted | server/src/handlers/get_today_summary.ts:19-26 | a row logged from the start of today's range up to now, such as one stored with the default timestamp, is listed once more and counted (no such row exists when the local year has two digits, see `TodaySummaryHandler.TwoDigitYearSkipsNow`) |
| TodaySummaryHandler.DayBeforeNotCounted | server/src/handlers/get_today_summary.ts:19-20 | a row logged one day or more before now, as one stored from an earlier clock reading of "yesterday" is, changes neither the total nor the rows listed |
| TodaySummaryHandler.LabelIsLocalDateIff | server/src/handlers/get_today_summary.ts:11-29 | the label is the date part of now's local date iff now falls on the same day in UTC and local time (for local years 100 and later that is the date summed; for years 0 to 99 the summed range lies 1900 years later) |
| TodaySummaryHandler.UtcServerMatchesExplicitDate | server/src/handlers/get_today_summary.ts:11-29 | at offset 0 the label is the local date; for years 100 to 9999 today's range is the label's explicit-date range plus its last millisecond, and for years 0 to 99 it lies wholly after the label's range |
| TodaySummaryHandler.YearOneConstructed | server/src/handlers/get_today_summary.ts:11 | 0001-01-01 starts at -62135596800000 while the constructor builds 1901-01-01 at -2177452800000 |
| TodaySummaryHandler.TwoDigitYearSkipsNow | server/src/handlers/get_today_summary.ts:11-26 | when now's local year is from 0 to 99 a row logged at now changes neither the total nor the rows listed |
| TodaySummaryHandler.LabelDiffersFromLocalDay | server/src/handlers/get_today_summary.ts:11-29 | at UTC-5 and 2024-01-16T02:00Z the summed local date is 2024-01-15 while the label is `2024-01-16` |
| TodaySummaryHandler.Jan16DatePart | server/src/handlers/get_today_summary.ts:29 | the date part of 2024-01-16 is the string `2024-01-16` |

## Left out

- The `db` connection, `execute()`, `async`/`await`, `console.error` and the
  rethrowing `catch` blocks are left out. The handlers are functions of a
  snapshot of the rows, and no error path of theirs carries logic.
- The real clock and the time zone database are left out. `now` and a fixed
  UTC offset are parameters, so daylight-saving days of 23 or 25 hours are not
  modelled.
- The explicit-date handlers require a label that names a real calendar date.
  The pattern also accepts labels such as `2024-13-45`; what
  `new Date(label + 'T00:00:00.000Z')` does with those is left to the host and
  is not modelled. `Schema.DatePatternIgnoresCalendar` shows that such labels
  pass.
- TimeClip is not modelled. `new Date(...)` yields an invalid date beyond
  ±8.64e15 ms, and a range end computed there is kept as an integer.
- PostgreSQL's `timestamp` has microsecond precision and no time zone. The
  model stores milliseconds, as the JavaScript `Date` values the handlers pass
  in do.
- Query.OrderByLoggedAt: rows with equal `logged_at` keep their storage order.
  PostgreSQL leaves their order open, so the contract states only sortedness
  and permutation.
- DailyCaloriesSummaryHandler.GetDailyCaloriesSummary and
  TodaySummaryHandler.GetTodaySummary have no `orderBy`, and the database may
  return their rows in any order. The model returns storage order and its
  contracts state the multiset only.
- Query.SumCalories adds integers exactly. JavaScript adds doubles, which lose
  precision beyond 2^53, and this is not modelled.
- The three read handlers send their range bounds as `toISOString` text,
  and PostgreSQL refuses the query when a bound lies outside UTC years 1 to
  9999 (a `0000-MM-DD` label, or a clock reading whose today range falls in
  such a year); the handler then throws. The model returns the rows in the
  range instead.
- Concurrent inserts during a read are not modelled; isolation is the
  database's concern.
- The `createFoodItem` handler is not part of this model. Insertion is
  modelled through the table semantics in `FoodStore.FoodItemsTable.Insert`,
  with the insert time as a parameter.
- The tRPC router in `server/src/index.ts` and the React client
  `client/src/App.tsx` are not part of this model.
- Schema: JavaScript numbers are modelled as reals, without NaN, the
  infinities or -0. zod's `coerce.date()` on `logged_at` is covered by the
  row's time-value type.
- `toISOString` throws a RangeError for an invalid date. `now` is a valid time
  value here, so that path does not arise.
