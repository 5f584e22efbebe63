/**
 * The state of `DashboardPage`: the displayed date, the selected day and the
 * four dialog flags, each held by a React `useState` and changed only by the
 * handlers below. Nothing ties the flags together, so dialogs can stack.
 */
module Dashboard {
  import opened Wrappers
  import opened Calendar
  import opened Navigation
  import opened Grid

  /** A JavaScript `Date` at local midnight, as a mutable object. */
  class JsDate {
    var year: int
    var month: int
    var day: int

    function Value(): CalDate
      reads this
    {
      CalDate(year, month, day)
    }

    /** `new Date(d)`: a copy. */
    constructor Copy(d: CalDate)
      ensures Value() == d
    {
      year, month, day := d.year, d.month, d.day;
    }

    function GetMonth(): (m: int)
      reads this
      ensures m == Value().month
    {
      month
    }

    /** `setMonth(m)`: keeps year and day-of-month, then normalises. */
    method SetMonth(m: int)
      modifies this
      ensures Value() == Navigation.SetMonth(old(Value()), m)
    {
      var r := MakeDate(year, m, day);
      year, month, day := r.year, r.month, r.day;
    }
  }

  class DashboardPage {
    var date: CalDate
    var selectedDay: Option<CalDate>
    var showAddHabitDialog: bool
    var showDayDialog: bool
    var showReminderDialog: bool
    var showShareDialog: bool

    ghost predicate Valid()
      reads this
    {
      ValidDate(date) && (selectedDay.Some? ==> ValidDate(selectedDay.value))
    }

    /** The initial state; `today` stands for `new Date()`. */
    constructor (today: CalDate)
      requires ValidDate(today)
      ensures Valid() && date == today && selectedDay == None
      ensures !showAddHabitDialog && !showDayDialog && !showReminderDialog && !showShareDialog
    {
      date := today;
      selectedDay := None;
      showAddHabitDialog, showDayDialog, showReminderDialog, showShareDialog := false, false, false, false;
    }

    /** `handlePreviousMonth`: only the date changes. */
    method HandlePreviousMonth()
      requires Valid()
      modifies this
      ensures Valid() && date == RetreatMonth(old(date)) && selectedDay == old(selectedDay)
      ensures showAddHabitDialog == old(showAddHabitDialog) && showDayDialog == old(showDayDialog)
      ensures showReminderDialog == old(showReminderDialog) && showShareDialog == old(showShareDialog)
    {
      var previousMonth := new JsDate.Copy(date);
      previousMonth.SetMonth(previousMonth.GetMonth() - 1);
      date := previousMonth.Value();
    }

    /** `handleNextMonth`: only the date changes. */
    method HandleNextMonth()
      requires Valid()
      modifies this
      ensures Valid() && date == AdvanceMonth(old(date)) && selectedDay == old(selectedDay)
      ensures showAddHabitDialog == old(showAddHabitDialog) && showDayDialog == old(showDayDialog)
      ensures showReminderDialog == old(showReminderDialog) && showShareDialog == old(showShareDialog)
    {
      var nextMonth := new JsDate.Copy(date);
      nextMonth.SetMonth(nextMonth.GetMonth() + 1);
      date := nextMonth.Value();
    }

    /** `handleDayClick`: selects the day and opens the day dialog, leaving
        every other dialog as it was. */
    method HandleDayClick(day: CalDate)
      requires Valid() && ValidDate(day)
      modifies this
      ensures Valid() && selectedDay == Some(day) && showDayDialog && date == old(date)
      ensures showAddHabitDialog == old(showAddHabitDialog)
      ensures showReminderDialog == old(showReminderDialog) && showShareDialog == old(showShareDialog)
    {
      selectedDay := Some(day);
      showDayDialog := true;
    }

    /** `setShowAddHabitDialog`: the "Add Habit" button opens, Cancel, "Add
        Habit" in the dialog and the dialog's own dismissal close. */
    method SetShowAddHabitDialog(open: bool)
      modifies this`showAddHabitDialog
      ensures showAddHabitDialog == open && (Valid() <==> old(Valid()))
    {
      showAddHabitDialog := open;
    }

    /** `setShowDayDialog`: Close and the dialog's own dismissal; the selected
        day is kept. */
    method SetShowDayDialog(open: bool)
      modifies this`showDayDialog
      ensures showDayDialog == open && (Valid() <==> old(Valid()))
    {
      showDayDialog := open;
    }

    /** `setShowReminderDialog`: "Set Reminder" in the day dialog and the
        habit cards' "Reminder" open it over whatever is open; Cancel and
        "Save Reminder" close it. */
    method SetShowReminderDialog(open: bool)
      modifies this`showReminderDialog
      ensures showReminderDialog == open && (Valid() <==> old(Valid()))
    {
      showReminderDialog := open;
    }

    /** `setShowShareDialog`: the share icon opens, Cancel and Share close. */
    method SetShowShareDialog(open: bool)
      modifies this`showShareDialog
      ensures showShareDialog == open && (Valid() <==> old(Valid()))
    {
      showShareDialog := open;
    }

    /** The `calendarDays` of the displayed month. */
    method CalendarDays() returns (cells: seq<Option<int>>)
      requires Valid()
      ensures cells == MonthGrid(date.year, date.month)
    {
      var daysInMonth := GetDaysInMonth(date.year, date.month);
      var firstDayOfMonth := FirstDayOfMonth(date.year, date.month);
      cells := BuildCalendarDays(firstDayOfMonth, daysInMonth);
    }

    /** A click on cell `index` of the rendered grid: only a cell holding a
        day has a handler, which selects `new Date(year, month, day)` (a year
        0..99 read as 19yy). */
    method HandleCellClick(cells: seq<Option<int>>, index: int)
      requires Valid() && cells == MonthGrid(date.year, date.month) && 0 <= index < |cells|
      modifies this
      ensures Valid() && date == old(date)
      ensures cells[index].None? ==>
                selectedDay == old(selectedDay) && showDayDialog == old(showDayDialog)
      ensures cells[index].Some? ==>
                selectedDay == Some(CalDate(FullYear(date.year), date.month, cells[index].value)) &&
                showDayDialog
      ensures showAddHabitDialog == old(showAddHabitDialog)
      ensures showReminderDialog == old(showReminderDialog) && showShareDialog == old(showShareDialog)
    {
      var cell := cells[index];
      if cell.Some? {
        var day := cell.value;
        MonthGridColumns(date.year, date.month, index);
        assert date.month / 12 == 0 && date.month % 12 == date.month;
        HandleDayClick(ConstructDate(date.year, date.month, day));
      }
    }
  }

  /** Opening the reminder from the day dialog leaves the day dialog open. */
  method ReminderOverDayDialog(today: CalDate, day: CalDate) returns (stacked: bool)
    requires ValidDate(today) && ValidDate(day)
    ensures stacked
  {
    var page := new DashboardPage(today);
    page.HandleDayClick(day);
    page.SetShowReminderDialog(true);
    stacked := page.showDayDialog && page.showReminderDialog && page.selectedDay == Some(day);
  }
}
