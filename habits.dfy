/**
 * Habits and the completion lookup of the dashboard: a habit counts as
 * completed on day-of-month d exactly when `completedDays.includes(d)`.
 */
module Habits {
  import opened Wrappers
  import opened Calendar

  /** A tracked habit; `completedDays` holds days of the displayed month. */
  datatype Habit = Habit(id: int, name: string, streak: int, color: string, completedDays: seq<int>)

  /** `Array.prototype.includes` on integers: a scan from the front. */
  function Includes(xs: seq<int>, x: int): (r: bool)
    ensures r <==> exists i :: 0 <= i < |xs| && xs[i] == x
  {
    if xs == [] then false
    else if xs[0] == x then true
    else Includes(xs[1..], x)
  }

  /** The lookup behind a habit's dot in a calendar cell and its "Completed" label. */
  function IsCompletedOn(h: Habit, day: int): (r: bool)
    ensures r <==> day in h.completedDays
  {
    Includes(h.completedDays, day)
  }

  /** The dots of calendar cell `day`: per habit in order, the habit when it
      was completed that day and null otherwise. */
  function CellDots(habits: seq<Habit>, day: int): (dots: seq<Option<Habit>>)
    ensures |dots| == |habits|
    ensures forall i :: 0 <= i < |habits| ==>
              (dots[i].Some? <==> day in habits[i].completedDays) &&
              (dots[i].Some? ==> dots[i].value == habits[i])
  {
    seq(|habits|, i requires 0 <= i < |habits| =>
      if IsCompletedOn(habits[i], day) then Some(habits[i]) else None)
  }

  /** `selectedDay?.getDate() || 0`: the day-of-month of the selection, and 0
      when nothing is selected. The `|| 0` fallback would also catch the NaN
      day of an invalid `Date`; the model's dates are never invalid, and an
      existing date's day is at least 1, so it never fires on a selection. */
  function DayDialogDay(selectedDay: Option<CalDate>): (day: int)
    ensures selectedDay.None? ==> day == 0
    ensures selectedDay.Some? && ValidDate(selectedDay.value) ==> day == selectedDay.value.day
  {
    match selectedDay
    case None => 0
    case Some(d) => d.day
  }

  /** The day dialog's button labels, per habit: true for "Completed",
      false for "Mark Complete". */
  function DayDialogLabels(habits: seq<Habit>, selectedDay: Option<CalDate>): (labels: seq<bool>)
    ensures |labels| == |habits|
    ensures forall i :: 0 <= i < |habits| ==>
              (labels[i] <==> DayDialogDay(selectedDay) in habits[i].completedDays)
  {
    seq(|habits|, i requires 0 <= i < |habits| => IsCompletedOn(habits[i], DayDialogDay(selectedDay)))
  }

  /** Completed days name existing days of the month, hence are at least 1. */
  predicate DaysArePositive(habits: seq<Habit>) {
    forall i, j :: 0 <= i < |habits| && 0 <= j < |habits[i].completedDays| ==>
      habits[i].completedDays[j] >= 1
  }

  /** With no day selected the lookup uses 0, which no habit has completed:
      every habit shows "Mark Complete". */
  lemma NoSelectionShowsMarkComplete(habits: seq<Habit>)
    requires DaysArePositive(habits)
    ensures forall i :: 0 <= i < |habits| ==> !DayDialogLabels(habits, None)[i]
  {
  }

  /** The day dialog for a selected day shows "Completed" exactly for the
      habits whose dot the calendar cell of that day shows. */
  lemma DialogAgreesWithCell(habits: seq<Habit>, d: CalDate)
    requires ValidDate(d)
    ensures forall i :: 0 <= i < |habits| ==>
              (DayDialogLabels(habits, Some(d))[i] <==> CellDots(habits, d.day)[i].Some?)
  {
  }

  /** The habits the dashboard shows. */
  const MockHabits: seq<Habit> := [
    Habit(1, "Morning Meditation", 8, "bg-green-500", [1, 2, 3, 5, 8, 9, 10, 11]),
    Habit(2, "Read 30 minutes", 5, "bg-blue-500", [2, 4, 6, 9, 11]),
    Habit(3, "Drink 8 glasses of water", 3, "bg-purple-500", [1, 3, 4, 7, 8, 9, 11]),
    Habit(4, "Exercise", 2, "bg-orange-500", [2, 5, 8, 11])
  ]

  /** Every completed day of the mock habits lies in 1..28, a day of every month. */
  lemma MockHabitsInRange()
    ensures DaysArePositive(MockHabits)
    ensures forall i, j :: 0 <= i < |MockHabits| && 0 <= j < |MockHabits[i].completedDays| ==>
              MockHabits[i].completedDays[j] <= 28
  {
  }

  /** "Morning Meditation" is completed on day 5 and not on day 6. */
  lemma MeditationExample()
    ensures IsCompletedOn(MockHabits[0], 5) && !IsCompletedOn(MockHabits[0], 6)
  {
    var days := MockHabits[0].completedDays;
    assert days == [1, 2, 3, 5, 8, 9, 10, 11];
    assert days[3] == 5;
    assert forall i :: 0 <= i < |days| ==> days[i] != 6;
  }
}
