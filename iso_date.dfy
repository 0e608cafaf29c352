/**
 * Date labels: the ISO 8601 extended calendar date `YYYY-MM-DD` (ISO 8601:2004
 * section 4.1.2.2) the client sends, and the date-time string that
 * `Date.prototype.toISOString` produces (ECMA-262 section 21.4.1.32, the
 * Date Time String Format, with the expanded six-digit years of section
 * 21.4.1.32.1).
 */
module IsoDate {
  import opened EcmaTime

  predicate IsDigit(c: char)
  {
    '0' <= c <= '9'
  }

  predicate AllDigits(s: string)
  {
    forall i :: 0 <= i < |s| ==> IsDigit(s[i])
  }

  function DigitChar(n: int): (c: char)
    requires 0 <= n <= 9
    ensures IsDigit(c)
  {
    ('0' as int + n) as char
  }

  function DigitValue(c: char): int
    requires IsDigit(c)
  {
    c as int - '0' as int
  }

  function Pow10(n: nat): nat
  {
    if n == 0 then 1 else 10 * Pow10(n - 1)
  }

  /** n in exactly `width` decimal digits, padded with leading zeros. */
  function Pad(n: nat, width: nat): (s: string)
    ensures |s| == width
    ensures AllDigits(s)
  {
    if width == 0 then "" else Pad(n / 10, width - 1) + [DigitChar(n % 10)]
  }

  /** The number a string of decimal digits denotes. */
  function DecimalValue(s: string): nat
    requires AllDigits(s)
  {
    if s == [] then 0 else 10 * DecimalValue(s[..|s| - 1]) + DigitValue(s[|s| - 1])
  }

  /** Reading back a padded number gives the number. */
  lemma {:induction false} DecimalValueOfPad(n: nat, width: nat)
    requires n < Pow10(width)
    ensures DecimalValue(Pad(n, width)) == n
  {
    if width > 0 {
      var s := Pad(n, width);
      assert s[..|s| - 1] == Pad(n / 10, width - 1);
      DecimalValueOfPad(n / 10, width - 1);
    }
  }

  /** Padding the value of a digit string to its own length gives the string back. */
  lemma {:induction false} PadOfDecimalValue(s: string)
    requires AllDigits(s)
    ensures DecimalValue(s) < Pow10(|s|)
    ensures Pad(DecimalValue(s), |s|) == s
  {
    if s != [] {
      var init := s[..|s| - 1];
      PadOfDecimalValue(init);
      var n := DecimalValue(s);
      assert n / 10 == DecimalValue(init) && n % 10 == DigitValue(s[|s| - 1]);
      assert s == init + [s[|s| - 1]];
    }
  }

  /** The shape of a `YYYY-MM-DD` label: ten characters, ASCII digits and two hyphens. */
  predicate IsDateLabelShape(s: string)
  {
    && |s| == 10
    && AllDigits(s[0..4]) && s[4] == '-'
    && AllDigits(s[5..7]) && s[7] == '-'
    && AllDigits(s[8..10])
  }

  /** The year, month and day a label names (not necessarily a real date). */
  function ParseLabel(s: string): (d: Date)
    requires IsDateLabelShape(s)
    ensures 0 <= d.year <= 9999 && 0 <= d.month <= 99 && 0 <= d.day <= 99
  {
    PadOfDecimalValue(s[0..4]);
    PadOfDecimalValue(s[5..7]);
    PadOfDecimalValue(s[8..10]);
    Date(DecimalValue(s[0..4]), DecimalValue(s[5..7]), DecimalValue(s[8..10]))
  }

  /** The fields of a label, digit by digit. */
  lemma ParseLabelDigits(s: string)
    requires IsDateLabelShape(s)
    ensures ParseLabel(s).year
         == 1000 * DigitValue(s[0]) + 100 * DigitValue(s[1]) + 10 * DigitValue(s[2]) + DigitValue(s[3])
    ensures ParseLabel(s).month == 10 * DigitValue(s[5]) + DigitValue(s[6])
    ensures ParseLabel(s).day == 10 * DigitValue(s[8]) + DigitValue(s[9])
  {
    var y, m, d := s[0..4], s[5..7], s[8..10];
    assert DecimalValue(y) == 10 * DecimalValue(y[..3]) + DigitValue(s[3]);
    assert DecimalValue(y[..3]) == 10 * DecimalValue(y[..2]) + DigitValue(s[2]) by {
      assert y[..3][..2] == y[..2];
    }
    assert DecimalValue(y[..2]) == 10 * DecimalValue(y[..1]) + DigitValue(s[1]) by {
      assert y[..2][..1] == y[..1];
    }
    assert DecimalValue(y[..1]) == DigitValue(s[0]) by {
      assert y[..1][..0] == [];
    }
    assert DecimalValue(m) == 10 * DecimalValue(m[..1]) + DigitValue(s[6]);
    assert DecimalValue(m[..1]) == DigitValue(s[5]) by {
      assert m[..1][..0] == [];
    }
    assert DecimalValue(d) == 10 * DecimalValue(d[..1]) + DigitValue(s[9]);
    assert DecimalValue(d[..1]) == DigitValue(s[8]) by {
      assert d[..1][..0] == [];
    }
  }

  /** A label that names a real calendar date. */
  predicate IsCalendarLabel(s: string)
  {
    IsDateLabelShape(s) && IsCalendarDate(ParseLabel(s))
  }

  /** The year as toISOString writes it: four digits, or a sign and six digits outside 0..9999. */
  function YearString(y: int): string
    requires -999999 <= y <= 999999
  {
    if 0 <= y <= 9999 then Pad(y, 4)
    else if y < 0 then "-" + Pad(-y, 6)
    else "+" + Pad(y, 6)
  }

  /** The date part of toISOString for a date. */
  function DatePart(d: Date): string
    requires -999999 <= d.year <= 999999 && 0 <= d.month <= 99 && 0 <= d.day <= 99
  {
    YearString(d.year) + "-" + Pad(d.month, 2) + "-" + Pad(d.day, 2)
  }

  /** The date part is a `YYYY-MM-DD` label exactly when the year has four digits. */
  lemma DatePartShape(d: Date)
    requires -999999 <= d.year <= 999999 && 0 <= d.month <= 99 && 0 <= d.day <= 99
    ensures IsDateLabelShape(DatePart(d)) <==> 0 <= d.year <= 9999
  {
    var s := DatePart(d);
    if 0 <= d.year <= 9999 {
      assert s[0..4] == Pad(d.year, 4);
      assert s[5..7] == Pad(d.month, 2);
      assert s[8..10] == Pad(d.day, 2);
    }
  }

  /** Formatting a date with a four-digit year and reading it back gives the date. */
  lemma ParseDatePart(d: Date)
    requires 0 <= d.year <= 9999 && 0 <= d.month <= 99 && 0 <= d.day <= 99
    ensures IsDateLabelShape(DatePart(d))
    ensures ParseLabel(DatePart(d)) == d
  {
    DatePartShape(d);
    var s := DatePart(d);
    assert s[0..4] == Pad(d.year, 4);
    assert s[5..7] == Pad(d.month, 2);
    assert s[8..10] == Pad(d.day, 2);
    DecimalValueOfPad(d.year, 4);
    DecimalValueOfPad(d.month, 2);
    DecimalValueOfPad(d.day, 2);
  }

  /** Reading a label and formatting the date again gives the label verbatim. */
  lemma DatePartOfLabel(s: string)
    requires IsDateLabelShape(s)
    ensures DatePart(ParseLabel(s)) == s
  {
    PadOfDecimalValue(s[0..4]);
    PadOfDecimalValue(s[5..7]);
    PadOfDecimalValue(s[8..10]);
    assert s == s[0..4] + "-" + s[5..7] + "-" + s[8..10];
  }

  /** The time part of toISOString for the milliseconds w into a day: `HH:mm:ss.sssZ`. */
  function TimePart(w: nat): string
  {
    Pad(w / MS_PER_HOUR, 2) + ":" + Pad(w / MS_PER_MINUTE % 60, 2) + ":"
      + Pad(w / MS_PER_SECOND % 60, 2) + "." + Pad(w % MS_PER_SECOND, 3) + "Z"
  }

  /** toISOString: `YYYY-MM-DDTHH:mm:ss.sssZ` of the UTC components of t. */
  function ToIsoString(t: TimeValue): string
  {
    DatePart(UtcDate(t)) + "T" + TimePart(t % MS_PER_DAY)
  }

  /** `s.split(sep)[0]`: the part of s before the first sep, or all of s. */
  function BeforeFirst(s: string, sep: char): (r: string)
    ensures r <= s
    ensures sep !in r
    ensures |r| < |s| ==> s[|r|] == sep
  {
    if s == [] || s[0] == sep then [] else [s[0]] + BeforeFirst(s[1..], sep)
  }

  /** The part before the first separator is the prefix that holds none. */
  lemma BeforeFirstOf(a: string, sep: char, b: string)
    requires sep !in a
    ensures BeforeFirst(a + [sep] + b, sep) == a
  {
    var s := a + [sep] + b;
    var r := BeforeFirst(s, sep);
    assert s[|a|] == sep;
  }

  /** The date part of toISOString holds digits and signs only, never a `T`. */
  lemma DatePartHasNoT(d: Date)
    requires -999999 <= d.year <= 999999 && 0 <= d.month <= 99 && 0 <= d.day <= 99
    ensures 'T' !in DatePart(d)
  {
    var y := d.year;
    var ys := YearString(y);
    assert 'T' !in ys by {
      if !(0 <= y <= 9999) {
        var digits := Pad(if y < 0 then -y else y, 6);
        assert ys == [ys[0]] + digits;
        assert 'T' !in digits;
      }
    }
    assert 'T' !in Pad(d.month, 2) && 'T' !in Pad(d.day, 2);
  }

  /** `toISOString().split('T')[0]` is the UTC date of t. */
  lemma DateOfIsoString(t: TimeValue)
    ensures BeforeFirst(ToIsoString(t), 'T') == DatePart(UtcDate(t))
  {
    var date := DatePart(UtcDate(t));
    DatePartHasNoT(UtcDate(t));
    BeforeFirstOf(date, 'T', TimePart(t % MS_PER_DAY));
  }
}
