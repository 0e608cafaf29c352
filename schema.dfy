/**
 * The zod schemas of the server, as predicates and validating functions:
 * the input of `createFoodItem`, the date input of the two explicit-date
 * queries (a regular expression), and the shapes of a food item and of a
 * daily summary.
 *
 * A JavaScript number is modelled as a `real` (it may be fractional); NaN
 * and the infinities, which zod's `number()` refuses anyway, are not.
 */
module Schema {
  import opened Wrappers
  import opened IsoDate
  import opened FoodStore
  import opened Query

  /** The problems zod reports, each with the message the schema gives it. */
  datatype Issue =
    | NameTooShort        // "Food name is required"
    | NotAnInteger        // number().int()
    | Negative            // number().nonnegative()
    | BadDateFormat       // "Date must be in YYYY-MM-DD format"

  // ---------------------------------------------------------------------------
  // The date regular expression /^\d{4}-\d{2}-\d{2}$/

  /** A character class of the pattern: `\d` (ASCII digits only) or one literal character. */
  datatype CharClass = AsciiDigit | Literal(c: char)

  /** A class repeated an exact number of times, as in `\d{4}`. */
  datatype Piece = Piece(cls: CharClass, count: nat)

  predicate InClass(cls: CharClass, c: char)
  {
    match cls
    case AsciiDigit => '0' <= c <= '9'
    case Literal(l) => c == l
  }

  /** The whole of s matches the pieces in order (`^` and `$` anchor both ends). */
  predicate MatchesAnchored(pieces: seq<Piece>, s: string)
    decreases |pieces|
  {
    if pieces == [] then s == []
    else
      var p := pieces[0];
      && p.count <= |s|
      && (forall i :: 0 <= i < p.count ==> InClass(p.cls, s[i]))
      && MatchesAnchored(pieces[1..], s[p.count..])
  }

  /** `/^\d{4}-\d{2}-\d{2}$/` */
  const DATE_PATTERN: seq<Piece> :=
    [Piece(AsciiDigit, 4), Piece(Literal('-'), 1), Piece(AsciiDigit, 2), Piece(Literal('-'), 1), Piece(AsciiDigit, 2)]

  /** The pattern accepts exactly the ten-character `YYYY-MM-DD` shapes. */
  lemma DatePatternMatchesLabelShape(s: string)
    ensures MatchesAnchored(DATE_PATTERN, s) <==> IsDateLabelShape(s)
  {
    var p := DATE_PATTERN;
    assert p[1..] == [p[1], p[2], p[3], p[4]];
    assert p[1..][1..] == [p[2], p[3], p[4]];
    assert p[1..][1..][1..] == [p[3], p[4]];
    assert p[1..][1..][1..][1..] == [p[4]];
    assert p[1..][1..][1..][1..][1..] == [];
    if 10 <= |s| {
      assert s[4..][1..] == s[5..];
      assert s[5..][2..] == s[7..];
      assert s[7..][1..] == s[8..];
      assert s[8..][2..] == s[10..];
      assert forall i :: 0 <= i < 2 ==> s[5..][i] == s[5..7][i];
      assert forall i :: 0 <= i < 2 ==> s[8..][i] == s[8..10][i];
      assert forall i :: 0 <= i < 4 ==> s[i] == s[0..4][i];
    }
  }

  /** `getFoodItemsByDateInputSchema`: the date string must match the pattern. */
  function ValidateDateInput(date: string): (r: Result<string, Issue>)
    ensures r.Ok? <==> IsDateLabelShape(date)
    ensures r.Ok? ==> r.value == date
    ensures r.Err? ==> r.error == BadDateFormat
  {
    DatePatternMatchesLabelShape(date);
    if MatchesAnchored(DATE_PATTERN, date) then Ok(date) else Err(BadDateFormat)
  }

  /** The pattern checks digits only: impossible months and days, and year 0, pass. */
  lemma DatePatternIgnoresCalendar()
    ensures ValidateDateInput("2024-13-45").Ok? && !IsCalendarLabel("2024-13-45")
    ensures ValidateDateInput("0000-00-00").Ok? && !IsCalendarLabel("0000-00-00")
    ensures ValidateDateInput("2024-01-15").Ok? && IsCalendarLabel("2024-01-15")
  {
    assert IsDateLabelShape("2024-13-45");
    ParseLabelDigits("2024-13-45");
    assert IsDateLabelShape("0000-00-00");
    ParseLabelDigits("0000-00-00");
    assert IsDateLabelShape("2024-01-15");
    ParseLabelDigits("2024-01-15");
  }

  /** Single-digit fields and trailing text are refused. */
  lemma DatePatternRefusesOtherShapes()
    ensures ValidateDateInput("2024-1-15") == Err(BadDateFormat)
    ensures ValidateDateInput("2024-01-15T00:00:00.000Z") == Err(BadDateFormat)
  {
  }

  // ---------------------------------------------------------------------------
  // Numbers and the create input

  predicate IsInteger(x: real)
  {
    x.Floor as real == x
  }

  /** `number().int().nonnegative()`: every failed check is reported, in order. */
  function NumberIssues(x: real): (issues: seq<Issue>)
    ensures issues == [] <==> IsInteger(x) && 0.0 <= x
    ensures NotAnInteger in issues <==> !IsInteger(x)
    ensures Negative in issues <==> x < 0.0
  {
    (if IsInteger(x) then [] else [NotAnInteger]) + (if x < 0.0 then [Negative] else [])
  }

  /** The input `createFoodItem` accepts. */
  datatype CreateFoodItemInput = CreateFoodItemInput(name: string, calories: int)

  /**
   * `createFoodItemInputSchema`: a name of at least one character (no
   * trimming) and a non-negative integral number of calories.
   */
  function ValidateCreateInput(name: string, calories: real): (r: Result<CreateFoodItemInput, seq<Issue>>)
    ensures r.Ok? <==> 1 <= |name| && IsInteger(calories) && 0.0 <= calories
    ensures r.Ok? ==> r.value.name == name && r.value.calories as real == calories && 0 <= r.value.calories
    ensures r.Err? ==> (NameTooShort in r.error <==> |name| < 1)
    ensures r.Err? ==> (NotAnInteger in r.error <==> !IsInteger(calories))
    ensures r.Err? ==> (Negative in r.error <==> calories < 0.0)
  {
    var issues := (if 1 <= |name| then [] else [NameTooShort]) + NumberIssues(calories);
    if issues == [] then Ok(CreateFoodItemInput(name, calories.Floor)) else Err(issues)
  }

  /** Zero calories and a name of blanks pass; fractions and negative numbers do not. */
  lemma CreateInputBoundaries()
    ensures ValidateCreateInput(" ", 0.0) == Ok(CreateFoodItemInput(" ", 0))
    ensures ValidateCreateInput("Apple", 95.5) == Err([NotAnInteger])
    ensures ValidateCreateInput("Apple", -1.0) == Err([Negative])
    ensures ValidateCreateInput("", -0.5) == Err([NameTooShort, NotAnInteger, Negative])
  {
    assert (-0.5).Floor == -1;
    assert (95.5).Floor == 95;
    assert NumberIssues(95.5) == [NotAnInteger];
    assert NumberIssues(-1.0) == [Negative];
    assert [] + [NotAnInteger] == [NotAnInteger];
    assert [] + [Negative] == [Negative];
    assert NumberIssues(-0.5) == [NotAnInteger, Negative];
    assert [NameTooShort] + [NotAnInteger, Negative] == [NameTooShort, NotAnInteger, Negative];
  }

  // ---------------------------------------------------------------------------
  // Output shapes

  /**
   * `foodItemSchema` of a stored row: id and name are present by the row's
   * type, `logged_at` is a valid date by the TimeValue type, and calories must
   * pass `int().nonnegative()`.
   */
  predicate FoodItemSchema(x: Row)
  {
    NumberIssues(x.calories as real) == []
  }

  /** A stored row is a valid food item exactly when its calories are not negative. */
  lemma FoodItemSchemaOfRow(x: Row)
    ensures FoodItemSchema(x) <==> 0 <= x.calories
  {
    assert (x.calories as real).Floor == x.calories;
  }

  /** The record both summary handlers return. */
  datatype DailyCaloriesSummary = DailyCaloriesSummary(date: string, totalCalories: int, foodItems: seq<Row>)

  /**
   * Two summaries that agree up to the order of their items, which a query
   * without `orderBy` leaves to the database.
   */
  predicate SameSummary(a: DailyCaloriesSummary, b: DailyCaloriesSummary)
  {
    a.date == b.date && a.totalCalories == b.totalCalories && multiset(a.foodItems) == multiset(b.foodItems)
  }

  /** `dailyCaloriesSummarySchema`. */
  predicate DailyCaloriesSummarySchema(s: DailyCaloriesSummary)
  {
    && NumberIssues(s.totalCalories as real) == []
    && forall i :: 0 <= i < |s.foodItems| ==> FoodItemSchema(s.foodItems[i])
  }

  /** A summary that totals valid food items is a valid summary, whatever its date. */
  lemma SummaryOfValidItems(date: string, items: seq<Row>)
    requires forall i :: 0 <= i < |items| ==> FoodItemSchema(items[i])
    ensures DailyCaloriesSummarySchema(DailyCaloriesSummary(date, SumCalories(items), items))
  {
    forall i | 0 <= i < |items|
      ensures 0 <= items[i].calories
    {
      FoodItemSchemaOfRow(items[i]);
    }
    SumCaloriesNonNegative(items);
    assert (SumCalories(items) as real).Floor == SumCalories(items);
  }
}
