/**
 * `getDaysInMonth`: the 6 x 7 month grid. It holds the trailing days of the
 * previous month (as many as the weekday of day 1), every day of the month,
 * then days 1, 2, ... of the next month until there are 42 cells. The two copies
 * of the function in the widget are identical; both are modelled by
 * `GetDaysInMonth` below.
 */
module MonthGrid {
  import opened CivilDate

  const GridSize: int := 42

  /** `firstDay.getDay()`: how many cells come from the previous month. */
  function FirstDayOfWeek(year: int, month: int): (w: int)
    requires 0 <= month < 12
    ensures 0 <= w < 7
  {
    Weekday(Date(year, month, 1))
  }

  /**
   * Cell `k` of the grid for (year, month) when day 1 falls on weekday `lead`,
   * with each `new Date(...)` of the loops replaced by the day it normalises to:
   * `new Date(year, month, -i)` is the `i`-th day before the last day of the
   * previous month, and `new Date(year, month + 1, i)` is day `i` of the next month.
   */
  function Cell(year: int, month: int, lead: int, k: int): (d: Date)
    requires 0 <= month < 12 && 0 <= lead < 7 && 0 <= k < GridSize
    ensures d.Valid()
  {
    var len := DaysInMonth(year, month);
    if k < lead then
      var p := PreviousMonth(year, month);
      Date(p.0, p.1, DaysInMonth(p.0, p.1) - (lead - 1 - k))
    else if k < lead + len then
      Date(year, month, k - lead + 1)
    else
      var n := NextMonth(year, month);
      Date(n.0, n.1, k - lead - len + 1)
  }

  /** Cell `k` of the grid for (year, month). */
  function GridCell(year: int, month: int, k: int): (d: Date)
    requires 0 <= month < 12 && 0 <= k < GridSize
    ensures d.Valid()
  {
    Cell(year, month, FirstDayOfWeek(year, month), k)
  }

  /** `getDaysInMonth`: the 42 cells of the month of `currentDate`. */
  method GetDaysInMonth(currentDate: Date) returns (days: seq<Date>)
    requires currentDate.Valid()
    ensures |days| == GridSize
    ensures forall k :: 0 <= k < GridSize ==> days[k] == GridCell(currentDate.year, currentDate.month, k)
  {
    days := PushGridDays(currentDate.year, currentDate.month, FirstDayOfWeek(currentDate.year, currentDate.month));
  }

  /**
   * The three loops of `getDaysInMonth`, pushing onto `days` one cell at a
   * time, once `firstDayOfWeek` (the weekday of day 1) is known.
   */
  method PushGridDays(year: int, month: int, firstDayOfWeek: int) returns (days: seq<Date>)
    requires 0 <= month < 12 && 0 <= firstDayOfWeek < 7
    ensures |days| == GridSize
    ensures forall k :: 0 <= k < GridSize ==> days[k] == Cell(year, month, firstDayOfWeek, k)
  {
    var lastDay := DaysInMonth(year, month);
    var prev := PreviousMonth(year, month);
    var next := NextMonth(year, month);
    days := [];

    // the previous month's days
    var i := firstDayOfWeek - 1;
    while i >= 0
      invariant -1 <= i < firstDayOfWeek
      invariant |days| == firstDayOfWeek - 1 - i
      invariant forall k :: 0 <= k < |days| ==> days[k] == Cell(year, month, firstDayOfWeek, k)
    {
      days := days + [Date(prev.0, prev.1, DaysInMonth(prev.0, prev.1) - i)];
      i := i - 1;
    }

    // the current month's days
    var date := 1;
    while date <= lastDay
      invariant 1 <= date <= lastDay + 1
      invariant |days| == firstDayOfWeek + date - 1
      invariant forall k :: 0 <= k < |days| ==> days[k] == Cell(year, month, firstDayOfWeek, k)
    {
      days := days + [Date(year, month, date)];
      date := date + 1;
    }

    // the next month's days, up to 42
    var remainingDays := GridSize - |days|;
    i := 1;
    while i <= remainingDays
      invariant 1 <= i <= remainingDays + 1
      invariant |days| == firstDayOfWeek + lastDay + i - 1
      invariant forall k :: 0 <= k < |days| ==> days[k] == Cell(year, month, firstDayOfWeek, k)
    {
      days := days + [Date(next.0, next.1, i)];
      i := i + 1;
    }
  }

  /** The grid is a run of 42 consecutive days that starts `FirstDayOfWeek` days before day 1. */
  lemma {:induction false} GridCellDayNumber(year: int, month: int, k: int)
    requires 0 <= month < 12 && 0 <= k < GridSize
    ensures DayNumber(GridCell(year, month, k))
         == DayNumber(Date(year, month, 1)) - FirstDayOfWeek(year, month) + k
  {
    var lead := FirstDayOfWeek(year, month);
    var len := DaysInMonth(year, month);
    if k < lead {
      var p := PreviousMonth(year, month);
      NextOfPreviousMonth(year, month);
      FirstOfNextMonth(p.0, p.1);
    } else if k >= lead + len {
      FirstOfNextMonth(year, month);
    }
  }

  lemma {:induction false} GridIsConsecutive(year: int, month: int, k: int)
    requires 0 <= month < 12 && 0 <= k < GridSize - 1
    ensures DayNumber(GridCell(year, month, k + 1)) == DayNumber(GridCell(year, month, k)) + 1
  {
    GridCellDayNumber(year, month, k);
    GridCellDayNumber(year, month, k + 1);
  }

  /**
   * Cell `k` falls on weekday `k % 7`: every row of seven runs from Sunday to
   * Saturday, so the first cell is a Sunday and the last a Saturday.
   */
  lemma {:induction false} GridCellWeekday(year: int, month: int, k: int)
    requires 0 <= month < 12 && 0 <= k < GridSize
    ensures Weekday(GridCell(year, month, k)) == k % 7
  {
    GridCellDayNumber(year, month, k);
    var x := DayNumber(Date(year, month, 1)) + 4;
    assert FirstDayOfWeek(year, month) == x % 7;
    var n := DayNumber(GridCell(year, month, k));
    assert n + 4 == x - x % 7 + k;
    ShiftMod7(x, k);
    assert Weekday(GridCell(year, month, k)) == (n + 4) % 7;
  }

  lemma ShiftMod7(x: int, k: int)
    ensures (x - x % 7 + k) % 7 == k % 7
  {
    assert x - x % 7 == 7 * (x / 7);
  }

  /**
   * The cells of (year, month) are exactly the middle run, day `d` sitting at
   * index `FirstDayOfWeek + d - 1`; the cells before it are in the previous
   * month and the cells after it in the next month.
   */
  lemma {:induction false} GridCellMonth(year: int, month: int, k: int)
    requires 0 <= month < 12 && 0 <= k < GridSize
    ensures var d, lead := GridCell(year, month, k), FirstDayOfWeek(year, month);
      && (k < lead ==> MonthIndex(d.year, d.month) == MonthIndex(year, month) - 1)
      && (lead <= k < lead + DaysInMonth(year, month) ==> d == Date(year, month, k - lead + 1))
      && (lead + DaysInMonth(year, month) <= k ==> MonthIndex(d.year, d.month) == MonthIndex(year, month) + 1)
  {
  }

  /** Every day of the month is in the grid exactly once, at index `FirstDayOfWeek + day - 1`. */
  lemma {:induction false} GridHoldsEachDayOnce(year: int, month: int, day: int, k: int)
    requires 0 <= month < 12 && 1 <= day <= DaysInMonth(year, month) && 0 <= k < GridSize
    ensures FirstDayOfWeek(year, month) + day - 1 < GridSize
    ensures GridCell(year, month, k) == Date(year, month, day) <==> k == FirstDayOfWeek(year, month) + day - 1
  {
    GridCellMonth(year, month, k);
  }

  /** `date.getMonth() === currentDate.getMonth()` (src/App.jsx, the dimming of other months' cells). */
  predicate IsCurrentMonth(d: Date, currentDate: Date) {
    d.month == currentDate.month
  }

  /** `date.getDay() === 0 || date.getDay() === 6`. */
  predicate IsWeekend(d: Date)
    requires d.Valid()
  {
    Weekday(d) == 0 || Weekday(d) == 6
  }

  /**
   * Comparing months alone (the year is ignored) still picks out exactly the
   * cells of the displayed month, since the neighbouring months differ by one.
   */
  lemma {:induction false} CurrentMonthCells(currentDate: Date, k: int)
    requires currentDate.Valid() && 0 <= k < GridSize
    ensures var lead := FirstDayOfWeek(currentDate.year, currentDate.month);
      (IsCurrentMonth(GridCell(currentDate.year, currentDate.month, k), currentDate)
       <==> lead <= k < lead + DaysInMonth(currentDate.year, currentDate.month))
  {
    GridCellMonth(currentDate.year, currentDate.month, k);
    var d := GridCell(currentDate.year, currentDate.month, k);
    if d.month == currentDate.month {
      var diff := MonthIndex(d.year, d.month) - MonthIndex(currentDate.year, currentDate.month);
      assert diff == 12 * (d.year - currentDate.year);
      assert diff != 1 && diff != -1;
    }
  }

  /** The weekend shading falls on the first and last columns of the grid. */
  lemma {:induction false} WeekendColumns(year: int, month: int, k: int)
    requires 0 <= month < 12 && 0 <= k < GridSize
    ensures IsWeekend(GridCell(year, month, k)) <==> k % 7 == 0 || k % 7 == 6
  {
    GridCellWeekday(year, month, k);
  }
}
