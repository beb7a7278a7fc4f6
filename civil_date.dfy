/**
 * Calendar dates as the widget reads them from a JavaScript `Date`:
 * `getFullYear()`, `getMonth()` (0 = January) and `getDate()`, on the proleptic
 * Gregorian calendar. Weekdays come from a day count whose day 0 is
 * 1970-01-01, a Thursday. Also the widget's day comparison, its month
 * navigation and the date key it files events under.
 */
module CivilDate {
  import opened Wrappers
  import opened JsText

  /** A local calendar day; `month` is 0-based as `getMonth()` returns it. */
  datatype Date = Date(year: int, month: int, day: int) {
    predicate Valid() {
      0 <= month < 12 && 1 <= day <= DaysInMonth(year, month)
    }
  }

  predicate IsLeapYear(year: int) {
    year % 4 == 0 && (year % 100 != 0 || year % 400 == 0)
  }

  /** `new Date(year, month + 1, 0).getDate()`: the length of the month. */
  function DaysInMonth(year: int, month: int): (n: int)
    requires 0 <= month < 12
    ensures 28 <= n <= 31
    ensures n == 29 <==> month == 1 && IsLeapYear(year)
  {
    if month == 1 then (if IsLeapYear(year) then 29 else 28)
    else if month == 3 || month == 5 || month == 8 || month == 10 then 30
    else 31
  }

  function DaysInYear(year: int): int {
    if IsLeapYear(year) then 366 else 365
  }

  /** Days of `year` before the first of `month` (0 <= month <= 12). */
  function DaysBeforeMonth(year: int, month: int): int
    requires 0 <= month <= 12
    decreases month
  {
    if month == 0 then 0 else DaysBeforeMonth(year, month - 1) + DaysInMonth(year, month - 1)
  }

  /** The twelve months add up to the length of the year. */
  lemma MonthsFillYear(year: int)
    ensures DaysBeforeMonth(year, 12) == DaysInYear(year)
  {
    var leap := if IsLeapYear(year) then 1 else 0;
    assert DaysBeforeMonth(year, 2) == 59 + leap;
    assert DaysBeforeMonth(year, 4) == 120 + leap;
    assert DaysBeforeMonth(year, 6) == 181 + leap;
    assert DaysBeforeMonth(year, 8) == 243 + leap;
    assert DaysBeforeMonth(year, 10) == 304 + leap;
  }

  /** Days from 1970-01-01 to January 1 of `year` (negative before 1970). */
  function DaysBeforeYear(year: int): int
    decreases if year >= 1970 then year - 1970 else 1970 - year
  {
    if year == 1970 then 0
    else if year > 1970 then DaysBeforeYear(year - 1) + DaysInYear(year - 1)
    else DaysBeforeYear(year + 1) - DaysInYear(year)
  }

  /** Day count of `d`, with 1970-01-01 as day 0. */
  function DayNumber(d: Date): int
    requires d.Valid()
  {
    DaysBeforeYear(d.year) + DaysBeforeMonth(d.year, d.month) + d.day - 1
  }

  /** `getDay()`: 0 = Sunday, ..., 6 = Saturday; 1970-01-01 was a Thursday. */
  function Weekday(d: Date): (w: int)
    requires d.Valid()
    ensures 0 <= w < 7
  {
    (DayNumber(d) + 4) % 7
  }

  /**
   * From 1970 to 2100 every fourth year, starting with 1972, is a leap year,
   * so January 1 of `year` comes 365 days a year plus one per leap year passed.
   */
  lemma {:induction false} DaysBeforeYearSince1970(year: int)
    requires 1970 <= year <= 2100
    ensures DaysBeforeYear(year) == 365 * (year - 1970) + (year - 1969) / 4
    decreases year - 1970
  {
    if year > 1970 {
      DaysBeforeYearSince1970(year - 1);
      assert IsLeapYear(year - 1) <==> (year - 1) % 4 == 0;
    }
  }

  /** January 1, 2000 was a Saturday. */
  lemma Weekday2000()
    ensures Weekday(Date(2000, 0, 1)) == 6
  {
    DaysBeforeYearSince1970(2000);
  }

  /** The day after `d`: the next day of the month, or day 1 of the next month. */
  function NextDay(d: Date): (r: Date)
    requires d.Valid()
    ensures r.Valid()
  {
    if d.day < DaysInMonth(d.year, d.month) then Date(d.year, d.month, d.day + 1)
    else
      var n := NextMonth(d.year, d.month);
      Date(n.0, n.1, 1)
  }

  /** The day after `d` has the next day number. */
  lemma {:induction false} NextDayNumber(d: Date)
    requires d.Valid()
    ensures DayNumber(NextDay(d)) == DayNumber(d) + 1
  {
    var first := Date(d.year, d.month, 1);
    assert DayNumber(d) == DayNumber(first) + d.day - 1;
    if d.day < DaysInMonth(d.year, d.month) {
      assert NextDay(d) == Date(d.year, d.month, d.day + 1);
    } else {
      var n := NextMonth(d.year, d.month);
      assert NextDay(d) == Date(n.0, n.1, 1);
      FirstOfNextMonth(d.year, d.month);
    }
  }

  /** The day after `d` falls on the next day of the week. */
  lemma {:induction false} NextDayWeekday(d: Date)
    requires d.Valid()
    ensures Weekday(NextDay(d)) == (Weekday(d) + 1) % 7
  {
    NextDayNumber(d);
    var x := DayNumber(d) + 4;
    assert Weekday(d) == x % 7;
    assert Weekday(NextDay(d)) == (x + 1) % 7;
    Mod7Step(x);
  }

  lemma Mod7Step(x: int)
    ensures (x + 1) % 7 == (x % 7 + 1) % 7
  {
    var q := x / 7;
    assert x == 7 * q + x % 7;
    assert x + 1 == 7 * q + (x % 7 + 1);
  }

  /** Position of a (year, month) pair on the line of all months. */
  function MonthIndex(year: int, month: int): int {
    12 * year + month
  }

  /** The (year, month) before `(year, month)`, wrapping January back to December. */
  function PreviousMonth(year: int, month: int): (r: (int, int))
    requires 0 <= month < 12
    ensures 0 <= r.1 < 12 && MonthIndex(r.0, r.1) == MonthIndex(year, month) - 1
  {
    if month == 0 then (year - 1, 11) else (year, month - 1)
  }

  /** The (year, month) after `(year, month)`, wrapping December on to January. */
  function NextMonth(year: int, month: int): (r: (int, int))
    requires 0 <= month < 12
    ensures 0 <= r.1 < 12 && MonthIndex(r.0, r.1) == MonthIndex(year, month) + 1
  {
    if month == 11 then (year + 1, 0) else (year, month + 1)
  }

  /** A month is pinned down by its index: (year, month) with 0 <= month < 12. */
  lemma MonthIndexInjective(y1: int, m1: int, y2: int, m2: int)
    requires 0 <= m1 < 12 && 0 <= m2 < 12
    requires MonthIndex(y1, m1) == MonthIndex(y2, m2)
    ensures y1 == y2 && m1 == m2
  {
  }

  lemma {:induction false} NextOfPreviousMonth(year: int, month: int)
    requires 0 <= month < 12
    ensures NextMonth(PreviousMonth(year, month).0, PreviousMonth(year, month).1) == (year, month)
    ensures PreviousMonth(NextMonth(year, month).0, NextMonth(year, month).1) == (year, month)
  {
    var p := PreviousMonth(year, month);
    var q := NextMonth(p.0, p.1);
    MonthIndexInjective(q.0, q.1, year, month);
    var n := NextMonth(year, month);
    var o := PreviousMonth(n.0, n.1);
    MonthIndexInjective(o.0, o.1, year, month);
  }

  /**
   * The first day of the next month follows the last day of this one:
   * its day number is this month's first day number plus the month's length.
   */
  lemma {:induction false} FirstOfNextMonth(year: int, month: int)
    requires 0 <= month < 12
    ensures var n := NextMonth(year, month);
      DayNumber(Date(n.0, n.1, 1)) == DayNumber(Date(year, month, 1)) + DaysInMonth(year, month)
  {
    if month == 11 {
      MonthsFillYear(year);
      assert DaysBeforeYear(year + 1) == DaysBeforeYear(year) + DaysInYear(year);
    }
  }

  /** `handlePreviousMonth`: day 1 of the month before `d`'s month. */
  function StartOfPreviousMonth(d: Date): (r: Date)
    requires d.Valid()
    ensures r.Valid() && r.day == 1
    ensures MonthIndex(r.year, r.month) == MonthIndex(d.year, d.month) - 1
  {
    var p := PreviousMonth(d.year, d.month);
    Date(p.0, p.1, 1)
  }

  /** `handleNextMonth`: day 1 of the month after `d`'s month. */
  function StartOfNextMonth(d: Date): (r: Date)
    requires d.Valid()
    ensures r.Valid() && r.day == 1
    ensures MonthIndex(r.year, r.month) == MonthIndex(d.year, d.month) + 1
  {
    var n := NextMonth(d.year, d.month);
    Date(n.0, n.1, 1)
  }

  /** Going forward and then back (or back and then forward) lands on day 1 of the month started from. */
  lemma {:induction false} NavigationRoundTrip(d: Date)
    requires d.Valid()
    ensures StartOfPreviousMonth(StartOfNextMonth(d)) == Date(d.year, d.month, 1)
    ensures StartOfNextMonth(StartOfPreviousMonth(d)) == Date(d.year, d.month, 1)
  {
    NextOfPreviousMonth(d.year, d.month);
  }

  /** `isSameDay`: an absent date (`null`) is never the same day as anything. */
  function IsSameDay(a: Option<Date>, b: Option<Date>): (r: bool)
    ensures r <==> a.Some? && b.Some? && a.value == b.value
  {
    a.Some? && b.Some?
    && a.value.day == b.value.day
    && a.value.month == b.value.month
    && a.value.year == b.value.year
  }

  lemma IsSameDayProperties(a: Option<Date>, b: Option<Date>)
    ensures a.None? || b.None? ==> !IsSameDay(a, b)
    ensures a.Some? ==> IsSameDay(a, a)
    ensures IsSameDay(a, b) == IsSameDay(b, a)
  {
  }

  /** `isToday`, with the clock reading `today` passed in. */
  function IsToday(d: Option<Date>, today: Date): (r: bool)
    ensures r <==> d == Some(today)
  {
    IsSameDay(d, Some(today))
  }

  /** The year as `Intl` writes a "numeric" year; years before 0 get a leading '-'. */
  function YearText(year: int): (s: string)
    ensures |s| >= 1 && (s[0] == '-' <==> year < 0)
  {
    if year >= 0 then Digits(year) else "-" + Digits(-year)
  }

  lemma YearTextInjective(a: int, b: int)
    requires YearText(a) == YearText(b)
    ensures a == b
  {
    if a >= 0 {
      DigitsInjective(a, b);
    } else {
      assert YearText(a)[1..] == Digits(-a) && YearText(b)[1..] == Digits(-b);
      DigitsInjective(-a, -b);
    }
  }

  /**
   * `formatDate`: the en-US text "MM/DD/YYYY" split at '/', reversed and joined
   * with '-', which gives year, then DAY, then month: "YYYY-DD-MM".
   */
  function FormatDate(d: Date): (key: string)
    requires d.Valid()
    ensures |key| >= 7 && key[|key| - 3] == '-' && key[|key| - 6] == '-'
    ensures key[..|key| - 6] == YearText(d.year)
    ensures AllDigits(key[|key| - 5..|key| - 3]) && DigitsValue(key[|key| - 5..|key| - 3]) == d.day
    ensures AllDigits(key[|key| - 2..]) && DigitsValue(key[|key| - 2..]) == d.month + 1
  {
    var y := YearText(d.year);
    var key := y + "-" + Pad2(d.day) + "-" + Pad2(d.month + 1);
    assert key[..|key| - 6] == y;
    assert key[|key| - 5..|key| - 3] == Pad2(d.day);
    assert key[|key| - 2..] == Pad2(d.month + 1);
    key
  }

  /** Two valid dates share a key exactly when `isSameDay` holds of them. */
  lemma FormatDateInjective(a: Date, b: Date)
    requires a.Valid() && b.Valid()
    ensures FormatDate(a) == FormatDate(b) <==> IsSameDay(Some(a), Some(b))
  {
    var ka, kb := FormatDate(a), FormatDate(b);
    if ka == kb {
      YearTextInjective(a.year, b.year);
      assert ka[|ka| - 5..|ka| - 3] == kb[|kb| - 5..|kb| - 3];
      assert ka[|ka| - 2..] == kb[|kb| - 2..];
    }
  }
}
