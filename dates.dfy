/**
 * The release-date check `moment(s, "YYYY-MM-DD").format("YYYY-MM-DD") === s`.
 * The rendering on the left is either the canonical `YYYY-MM-DD` form of the
 * date moment read, or the text `Invalid date` when nothing could be read; so
 * a string passes exactly when it is already the canonical rendering of a real
 * Gregorian calendar date, or is that text itself. Parsing is modelled
 * declaratively (fields at fixed positions), with `Format` as the partner
 * rendering and the round trip proved in both directions.
 */
module Dates {
  import opened Js
  import opened Validation

  function DigitValue(c: char): nat
    requires IsDigit(c)
  {
    c as int - '0' as int
  }

  function Digit(n: nat): (c: char)
    requires n <= 9
    ensures IsDigit(c) && DigitValue(c) == n
  {
    ('0' as int + n) as char
  }

  predicate IsLeapYear(y: int) {
    y % 4 == 0 && (y % 100 != 0 || y % 400 == 0)
  }

  function DaysInMonth(y: int, m: int): (d: nat)
    requires 1 <= m <= 12
    ensures 28 <= d <= 31
  {
    if m == 2 then (if IsLeapYear(y) then 29 else 28)
    else if m == 4 || m == 6 || m == 9 || m == 11 then 30
    else 31
  }

  /** A day of the proleptic Gregorian calendar with a four-digit year. */
  predicate IsCalendarDate(y: int, m: int, d: int) {
    0 <= y <= 9999 && 1 <= m <= 12 && 1 <= d <= DaysInMonth(y, m)
  }

  /** `YYYY-MM-DD` laid out character by character. */
  predicate HasDateLayout(s: string) {
    |s| == 10 && s[4] == '-' && s[7] == '-'
    && IsDigit(s[0]) && IsDigit(s[1]) && IsDigit(s[2]) && IsDigit(s[3])
    && IsDigit(s[5]) && IsDigit(s[6]) && IsDigit(s[8]) && IsDigit(s[9])
  }

  function Year(s: string): nat
    requires HasDateLayout(s)
  {
    1000 * DigitValue(s[0]) + 100 * DigitValue(s[1]) + 10 * DigitValue(s[2]) + DigitValue(s[3])
  }

  function Month(s: string): nat
    requires HasDateLayout(s)
  {
    10 * DigitValue(s[5]) + DigitValue(s[6])
  }

  function Day(s: string): nat
    requires HasDateLayout(s)
  {
    10 * DigitValue(s[8]) + DigitValue(s[9])
  }

  /** The string equals its own reformat: canonical layout of a real calendar date. */
  predicate IsCanonicalDate(s: string) {
    HasDateLayout(s) && IsCalendarDate(Year(s), Month(s), Day(s))
  }

  /** Render a date as `YYYY-MM-DD`, zero-padded. */
  function Format(y: nat, m: nat, d: nat): string
    requires y <= 9999 && m <= 99 && d <= 99
  {
    [Digit(y / 1000), Digit(y / 100 % 10), Digit(y / 10 % 10), Digit(y % 10), '-',
     Digit(m / 10), Digit(m % 10), '-', Digit(d / 10), Digit(d % 10)]
  }

  lemma FourDigits(y: nat)
    requires y <= 9999
    ensures 1000 * (y / 1000) + 100 * (y / 100 % 10) + 10 * (y / 10 % 10) + y % 10 == y
  {
    assert y == 10 * (y / 10) + y % 10;
    assert y / 10 == 10 * (y / 100) + y / 10 % 10;
    assert y / 100 == 10 * (y / 1000) + y / 100 % 10;
  }

  /** Every calendar date renders to a canonical string that reads back as the same date. */
  lemma FormatIsCanonical(y: nat, m: nat, d: nat)
    requires IsCalendarDate(y, m, d)
    ensures IsCanonicalDate(Format(y, m, d))
    ensures Year(Format(y, m, d)) == y && Month(Format(y, m, d)) == m && Day(Format(y, m, d)) == d
  {
    FourDigits(y);
  }

  /** Every canonical date string is the rendering of the date it reads as. */
  lemma CanonicalIsFormatted(s: string)
    requires IsCanonicalDate(s)
    ensures Format(Year(s), Month(s), Day(s)) == s
  {
    var a, b, c, d := DigitValue(s[0]), DigitValue(s[1]), DigitValue(s[2]), DigitValue(s[3]);
    var y := Year(s);
    assert y / 1000 == a;
    assert y / 100 == 10 * a + b;
    assert y / 100 % 10 == b;
    assert y / 10 == 100 * a + 10 * b + c;
    assert y / 10 % 10 == c;
    assert y % 10 == d;
    var f := Format(y, Month(s), Day(s));
    forall k | 0 <= k < 10 ensures f[k] == s[k] {
    }
  }

  /** What moment's `format` renders for a date it could not read. */
  const InvalidDateText: string := "Invalid date"

  /** The release-date check: the string equals its own reformat. */
  predicate PassesDateCheck(s: string) {
    IsCanonicalDate(s) || s == InvalidDateText
  }

  /** The strings that pass the date check are exactly the renderings of calendar dates, plus the text `Invalid date`. */
  lemma PassesDateCheckExactly(s: string)
    ensures PassesDateCheck(s) <==>
      (exists y: nat, m: nat, d: nat :: IsCalendarDate(y, m, d) && s == Format(y, m, d)) || s == InvalidDateText
  {
    if IsCanonicalDate(s) {
      CanonicalIsFormatted(s);
      assert IsCalendarDate(Year(s), Month(s), Day(s)) && s == Format(Year(s), Month(s), Day(s));
    }
    if exists y: nat, m: nat, d: nat :: IsCalendarDate(y, m, d) && s == Format(y, m, d) {
      var y: nat, m: nat, d: nat :| IsCalendarDate(y, m, d) && s == Format(y, m, d);
      FormatIsCanonical(y, m, d);
    }
  }

  /** A string that passes the date check has no white space at either end, so trimming it changes nothing. */
  lemma PassingDateIsTrimmed(s: string)
    requires PassesDateCheck(s)
    ensures Trim(s) == s
  {
    TrimNoOp(s);
  }

  /** `Invalid date` is no calendar date but passes the check, also once trimmed out of surrounding blanks. */
  lemma InvalidDateTextPasses()
    ensures !IsCanonicalDate(InvalidDateText) && PassesDateCheck(InvalidDateText)
    ensures Trim(" Invalid date  ") == InvalidDateText && PassesDateCheck(Trim(" Invalid date  "))
  {
    var padded := " Invalid date  ";
    assert padded[1..] == InvalidDateText + "  ";
    assert TrimStart(padded) == InvalidDateText + "  ";
    var t := InvalidDateText + "  ";
    assert t[..|t| - 1] == InvalidDateText + " ";
    assert (InvalidDateText + " ")[..|InvalidDateText|] == InvalidDateText;
    TrimNoOp(InvalidDateText);
  }

  /** Leap days pass where the Gregorian rule puts them, in 2024 and in 2000 alike. */
  lemma ValidDateExamples()
    ensures PassesDateCheck("2023-02-28") && PassesDateCheck("2024-02-29") && PassesDateCheck("2000-02-29")
  {
  }

  /** No leap day in 2023 or in 1900, no 30 February, no 31 April, no month 13. */
  lemma InvalidDateExamples()
    ensures !PassesDateCheck("2023-02-29") && !PassesDateCheck("1900-02-29")
    ensures !PassesDateCheck("2023-02-30") && !PassesDateCheck("2023-04-31")
    ensures !PassesDateCheck("2023-13-01")
  {
  }

  /** A month written with one digit is not the canonical rendering. */
  lemma UnpaddedDateRejected()
    ensures !PassesDateCheck("2023-2-28")
  {
  }
}
