/**
 * Proleptic-Gregorian calendar dates, as Python's `datetime.date` holds them:
 * the day ordinal (`toordinal`, day 1 is 0001-01-01) that makes
 * `(a - b).days` plain integer subtraction, the ISO text form written by
 * `str(date)` and read by `strptime(text, '%Y-%m-%d')`.
 */
module Dates {
  import opened Common
  import opened Text

  datatype Date = Date(year: int, month: int, day: int)

  const MinYear := 1
  const MaxYear := 9999

  predicate IsLeapYear(y: int) {
    y % 4 == 0 && (y % 100 != 0 || y % 400 == 0)
  }

  function DaysInYear(y: int): int {
    if IsLeapYear(y) then 366 else 365
  }

  function DaysInMonth(y: int, m: int): int
    requires 1 <= m <= 12
  {
    if m == 2 then (if IsLeapYear(y) then 29 else 28)
    else if m == 4 || m == 6 || m == 9 || m == 11 then 30
    else 31
  }

  /** What `datetime.date(year, month, day)` accepts. */
  predicate IsValid(d: Date) {
    MinYear <= d.year <= MaxYear && 1 <= d.month <= 12 && 1 <= d.day <= DaysInMonth(d.year, d.month)
  }

  type CalendarDate = d: Date | IsValid(d) witness Date(1, 1, 1)

  /** Days in the years before `y` (CPython's `_days_before_year`). */
  function DaysBeforeYear(y: int): int
    requires y >= 1
  {
    var y1 := y - 1;
    y1 * 365 + y1 / 4 - y1 / 100 + y1 / 400
  }

  /** Days in the months of year `y` before month `m` (CPython's table `_DAYS_BEFORE_MONTH` plus the leap day). */
  function DaysBeforeMonth(y: int, m: int): int
    requires 1 <= m <= 12
  {
    [0, 31, 59, 90, 120, 151, 181, 212, 243, 273, 304, 334][m - 1]
      + (if m > 2 && IsLeapYear(y) then 1 else 0)
  }

  /** `date.toordinal()`. */
  function Ordinal(d: CalendarDate): int {
    DaysBeforeYear(d.year) + DaysBeforeMonth(d.year, d.month) + d.day
  }

  /** `(later - earlier).days`. */
  function DaysBetween(later: CalendarDate, earlier: CalendarDate): int {
    Ordinal(later) - Ordinal(earlier)
  }

  /** Calendar order: earlier year, then earlier month, then earlier day. */
  predicate Before(a: Date, b: Date) {
    a.year < b.year
    || (a.year == b.year && a.month < b.month)
    || (a.year == b.year && a.month == b.month && a.day < b.day)
  }

  /** The day after `d` on the calendar. */
  function NextDay(d: CalendarDate): Date {
    if d.day < DaysInMonth(d.year, d.month) then Date(d.year, d.month, d.day + 1)
    else if d.month < 12 then Date(d.year, d.month + 1, 1)
    else Date(d.year + 1, 1, 1)
  }

  // ---------------------------------------------------------------------------
  // The ordinal counts days

  lemma OrdinalOfFirstDay()
    ensures Ordinal(Date(1, 1, 1)) == 1
  {
  }

  /** Stepping a year past a multiple of 4, 100 or 400 adds one to the count of such multiples. */
  lemma DivSteps(y: int)
    requires y >= 1
    ensures y / 4 - (y - 1) / 4 == if y % 4 == 0 then 1 else 0
    ensures y / 100 - (y - 1) / 100 == if y % 100 == 0 then 1 else 0
    ensures y / 400 - (y - 1) / 400 == if y % 400 == 0 then 1 else 0
  {
  }

  /** Multiples of 400 are multiples of 100, which are multiples of 4. */
  lemma DivisibilityChain(y: int)
    ensures y % 400 == 0 ==> y % 100 == 0
    ensures y % 100 == 0 ==> y % 4 == 0
  {
    if y % 400 == 0 {
      var k := y / 400;
      assert y == 100 * (4 * k);
      assert y / 100 == 4 * k;
    }
    if y % 100 == 0 {
      var k := y / 100;
      assert y == 4 * (25 * k);
      assert y / 4 == 25 * k;
    }
  }

  /** Consecutive year starts are one year length apart. */
  lemma YearLength(y: int)
    requires y >= 1
    ensures DaysBeforeYear(y + 1) == DaysBeforeYear(y) + DaysInYear(y)
  {
    DivSteps(y);
    DivisibilityChain(y);
    var a, b, c := y / 4 - (y - 1) / 4, y / 100 - (y - 1) / 100, y / 400 - (y - 1) / 400;
    assert DaysBeforeYear(y + 1) - DaysBeforeYear(y) == 365 + a - b + c;
  }

  /** The month table agrees with the month lengths. */
  lemma MonthTable(y: int, m: int)
    requires 1 <= m <= 12
    ensures m < 12 ==> DaysBeforeMonth(y, m + 1) == DaysBeforeMonth(y, m) + DaysInMonth(y, m)
    ensures m == 12 ==> DaysBeforeMonth(y, m) + DaysInMonth(y, m) == DaysInYear(y)
  {
  }

  /** The next calendar day has the next ordinal. */
  lemma OrdinalNextDay(d: CalendarDate)
    requires d != Date(MaxYear, 12, 31)
    ensures IsValid(NextDay(d))
    ensures Ordinal(NextDay(d)) == Ordinal(d) + 1
  {
    MonthTable(d.year, d.month);
    if d.day == DaysInMonth(d.year, d.month) && d.month == 12 {
      YearLength(d.year);
    }
  }

  /** Later months of a year start after the whole of earlier months. */
  lemma {:induction false} MonthsAscend(y: int, m1: int, m2: int)
    requires 1 <= m1 < m2 <= 12
    ensures DaysBeforeMonth(y, m1) + DaysInMonth(y, m1) <= DaysBeforeMonth(y, m2)
  {
    MonthTable(y, m2 - 1);
    if m1 < m2 - 1 {
      MonthsAscend(y, m1, m2 - 1);
    }
  }

  /** Later years start after the whole of earlier years. */
  lemma {:induction false} YearsAscend(y1: int, y2: int)
    requires 1 <= y1 < y2
    ensures DaysBeforeYear(y1) + DaysInYear(y1) <= DaysBeforeYear(y2)
    decreases y2 - y1
  {
    YearLength(y1);
    if y1 + 1 < y2 {
      YearsAscend(y1 + 1, y2);
    }
  }

  /** Every day of year `y` has an ordinal inside that year's span. */
  lemma OrdinalWithinYear(d: CalendarDate)
    ensures DaysBeforeYear(d.year) < Ordinal(d) <= DaysBeforeYear(d.year) + DaysInYear(d.year)
  {
    MonthTable(d.year, 12);
    if d.month < 12 {
      MonthsAscend(d.year, d.month, 12);
    }
  }

  /** One date is earlier than another exactly when its ordinal is smaller. */
  lemma OrdinalOrder(a: CalendarDate, b: CalendarDate)
    ensures Before(a, b) <==> Ordinal(a) < Ordinal(b)
  {
    OrdinalBefore(a, b);
    OrdinalBefore(b, a);
  }

  lemma OrdinalBefore(a: CalendarDate, b: CalendarDate)
    ensures Before(a, b) ==> Ordinal(a) < Ordinal(b)
  {
    if a.year < b.year {
      OrdinalWithinYear(a);
      OrdinalWithinYear(b);
      YearsAscend(a.year, b.year);
    } else if a.year == b.year && a.month < b.month {
      MonthsAscend(a.year, a.month, b.month);
    }
  }

  /** Distinct dates have distinct ordinals. */
  lemma OrdinalInjective(a: CalendarDate, b: CalendarDate)
    requires Ordinal(a) == Ordinal(b)
    ensures a == b
  {
    OrdinalBefore(a, b);
    OrdinalBefore(b, a);
  }

  // ---------------------------------------------------------------------------
  // ISO text

  /** `str(date)`: `YYYY-MM-DD`, each part zero-padded. */
  function FormatDate(d: CalendarDate): (s: string)
    ensures |s| == 10
  {
    PadDigits(d.year, 4) + "-" + PadDigits(d.month, 2) + "-" + PadDigits(d.day, 2)
  }

  /**
   * `strptime(s, '%Y-%m-%d').date()` on the zero-padded form: four year
   * digits, two month digits, two day digits, separated by '-', naming a
   * real calendar day; None where Python raises ValueError.
   */
  function ParseDate(s: string): (r: Option<CalendarDate>)
    ensures r.Some? ==> |s| == 10 && s[4] == '-' && s[7] == '-'
  {
    if |s| == 10 && s[4] == '-' && s[7] == '-'
       && AllDigits(s[..4]) && AllDigits(s[5..7]) && AllDigits(s[8..])
    then
      var d := Date(DigitsValue(s[..4]), DigitsValue(s[5..7]), DigitsValue(s[8..]));
      if IsValid(d) then Some(d) else None
    else
      None
  }

  /** A date's text form reads back as the same date. */
  lemma ParseFormatDate(d: CalendarDate)
    ensures ParseDate(FormatDate(d)) == Some(d)
  {
    var s := FormatDate(d);
    assert s[..4] == PadDigits(d.year, 4);
    assert s[5..7] == PadDigits(d.month, 2);
    assert s[8..] == PadDigits(d.day, 2);
    PadDigitsRoundTrip(d.year, 4);
    PadDigitsRoundTrip(d.month, 2);
    PadDigitsRoundTrip(d.day, 2);
  }

  /** Text that parses as a date is exactly that date's text form. */
  lemma FormatParseDate(s: string, d: CalendarDate)
    requires ParseDate(s) == Some(d)
    ensures FormatDate(d) == s
  {
    var year, month, day := s[..4], s[5..7], s[8..];
    assert d == Date(DigitsValue(year), DigitsValue(month), DigitsValue(day));
    DigitsPadRoundTrip(year);
    DigitsPadRoundTrip(month);
    DigitsPadRoundTrip(day);
    assert FormatDate(d) == year + "-" + month + "-" + day;
    assert s == s[..4] + s[4..5] + s[5..7] + s[7..8] + s[8..];
  }

  /** The accepted texts are exactly the text forms of calendar dates. */
  lemma ParseDateExactlyFormatted(s: string, d: CalendarDate)
    ensures ParseDate(s) == Some(d) <==> FormatDate(d) == s
  {
    if ParseDate(s) == Some(d) {
      FormatParseDate(s, d);
    }
    if FormatDate(d) == s {
      ParseFormatDate(d);
    }
  }

  /** February 30 is not a date, although it has the shape of one. */
  lemma ParseDateRejectsFebruary30()
    ensures ParseDate("2024-02-30") == None
  {
    var s := "2024-02-30";
    assert s[5..7] == "02" && s[5..7][..1] == "0" && "0"[..0] == "";
    assert DigitsValue("0") == 0;
    assert DigitsValue(s[5..7]) == 2;
    assert s[8..] == "30" && s[8..][..1] == "3" && "3"[..0] == "";
    assert DigitsValue("3") == 3;
    assert DigitsValue(s[8..]) == 30;
  }
}
