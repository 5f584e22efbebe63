/**
 * The `calendarDays` array of the dashboard: `firstDayOfMonth` empty cells
 * followed by the days 1..daysInMonth, laid out in rows of seven under the
 * headers Sun, Mon, .., Sat.
 */
module Grid {
  import opened Wrappers
  import opened Calendar

  /** The cell sequence: `first` nulls, then the days 1..n in order. */
  function CalendarLayout(first: nat, n: nat): seq<Option<int>> {
    seq(first, _ => None) + seq(n, i => Some(i + 1))
  }

  /** The two `push` loops that build `calendarDays`. */
  method BuildCalendarDays(firstDayOfMonth: nat, daysInMonth: nat) returns (cells: seq<Option<int>>)
    ensures cells == CalendarLayout(firstDayOfMonth, daysInMonth)
  {
    cells := [];
    var i := 0;
    while i < firstDayOfMonth
      invariant 0 <= i <= firstDayOfMonth
      invariant cells == seq(i, _ => None)
    {
      cells := cells + [None];
      i := i + 1;
    }
    i := 1;
    while i <= daysInMonth
      invariant 1 <= i <= daysInMonth + 1
      invariant cells == seq(firstDayOfMonth, _ => None) + seq(i - 1, k => Some(k + 1))
    {
      cells := cells + [Some(i)];
      i := i + 1;
    }
  }

  /** The cells before the first day are empty, and day i sits at index
      first + i - 1, so the grid has first + n cells. */
  lemma LayoutShape(first: nat, n: nat)
    ensures |CalendarLayout(first, n)| == first + n
    ensures forall k :: 0 <= k < first ==> CalendarLayout(first, n)[k] == None
    ensures forall k :: first <= k < first + n ==> CalendarLayout(first, n)[k] == Some(k - first + 1)
  {
  }

  /** The days shown are strictly increasing from left to right and top to bottom. */
  lemma LayoutIncreasing(first: nat, n: nat, j: int, k: int)
    requires 0 <= j < k < first + n
    requires CalendarLayout(first, n)[j].Some? && CalendarLayout(first, n)[k].Some?
    ensures CalendarLayout(first, n)[j].value < CalendarLayout(first, n)[k].value
  {
    LayoutShape(first, n);
  }

  /** The grid for month `month` of `year`, as the dashboard builds it. */
  function MonthGrid(year: int, month: int): (g: seq<Option<int>>)
    ensures forall k :: 0 <= k < |g| ==> (g[k].None? <==> k < FirstDayOfMonth(year, month))
  {
    LayoutShape(FirstDayOfMonth(year, month), GetDaysInMonth(year, month));
    CalendarLayout(FirstDayOfMonth(year, month), GetDaysInMonth(year, month))
  }

  /** A month grid fills four to six rows: 28 to 37 cells. */
  lemma MonthGridSize(year: int, month: int)
    ensures 28 <= |MonthGrid(year, month)| <= 37
  {
    DaysInMonthIsMonthLength(year, month);
    LayoutShape(FirstDayOfMonth(year, month), GetDaysInMonth(year, month));
  }

  /** Each day sits in the column of its weekday (column 0 = "Sun"): the cell
      at index k holding day d is the date `new Date(year, month, d)`, and
      its weekday is k mod 7. */
  lemma MonthGridColumns(year: int, month: int, k: int)
    requires 0 <= k < |MonthGrid(year, month)| && MonthGrid(year, month)[k].Some?
    ensures var d := MonthGrid(year, month)[k].value;
            var date := ConstructDate(year, month, d);
            date == CalDate(FullYear(year) + month / 12, month % 12, d) &&
            WeekDay(date) == k % 7
  {
    var first, n := FirstDayOfMonth(year, month), GetDaysInMonth(year, month);
    var Y, M := FullYear(year) + month / 12, month % 12;
    LayoutShape(first, n);
    DaysInMonthIsMonthLength(year, month);
    var d := k - first + 1;
    assert MonthGrid(year, month)[k] == Some(d);
    assert 1 <= d <= MonthLength(Y, M);
    ConstructExisting(year, month, 1);
    ConstructExisting(year, month, d);
    WeekDayInMonth(Y, M, d);
    assert WeekDay(CalDate(Y, M, 1)) == first;
  }
}
