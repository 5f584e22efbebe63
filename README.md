# Habit-tracker dashboard: calendar and view state

This project models the logic of the dashboard page of the habitude habit
tracker (`frontend/habit-tracker-frontend/src/app/dashboard/page.tsx`) in
Dafny:

- the calendar arithmetic it takes from JavaScript's `Date`:
  - `getDaysInMonth` as "day 0 of the next month";
  - the weekday of the first of the month (`firstDayOfMonth`, Sunday = 0);
  - the normalisation that `new Date(y, m, d)` and `setMonth` apply;
- the `calendarDays` grid built by two `push` loops;
- month navigation with `setMonth(getMonth() ± 1)` on a copy of the date;
- the six `useState` values (date, selected day, four dialog flags) and the
  handlers that change them;
- the `completedDays.includes` lookups behind the calendar dots and the day
  dialog's "Completed" / "Mark Complete" labels.

Dates are `CalDate(year, month, day)` with a zero-based month. Day numbers
count from 1 January 1970 as ECMAScript's DayFromYear and MakeDay define
them, and the weekday is `(dayNumber + 4) mod 7`. `NormalizeDay` moves an
out-of-range day one month at a time. It returns an existing date, and
`NormalizeDayNumber` and `MakeDateIsMakeDay` prove that it is the date with the day number ECMAScript prescribes. `DayNumberInjective`
shows that only one existing date has that number.

Files and modules:

- `wrappers.dfy` (`Wrappers`): `Option`, for JavaScript's `null`.
- `calendar.dfy` (`Calendar`): dates, leap years, day numbers, `MakeDate`,
  `ConstructDate` (`new Date(y, m, d)`), `GetDaysInMonth`, `FirstDayOfMonth`.
- `navigation.dfy` (`Navigation`): `SetMonth`, `AdvanceMonth`,
  `RetreatMonth` and their lemmas.
- `grid.dfy` (`Grid`): `CalendarLayout`, the loop method
  `BuildCalendarDays`, and the grid lemmas.
- `habits.dfy` (`Habits`): habits, `Includes`, the cell dots, the day-dialog
  labels and the mock habits.
- `dashboard.dfy` (`Dashboard`): the classes `JsDate` (a mutable `Date`) and
  `DashboardPage`, whose fields are the component's state.

Behaviour of the code that the model keeps:

- `new Date(y, m, d)` reads a year 0..99 as 1900 + y. `getDaysInMonth`,
  `firstDayOfMonth` and the day-click handler all use that constructor. So
  for years 0..99 the grid shows the months of 1900..1999, and the selected
  day is a date in 19yy (`TwoDigitYearExample`). `setMonth` does not remap
  the year.
- `setMonth` keeps the day-of-month. A day the target month lacks spills
  over into the month after. From 31 January "next" shows March, and from
  31 March "previous" stays on March (`JanuaryOverflow`, `MarchOverflow`).
  So advancing and then retreating does not always restore the date.
  `AdvanceThenRetreat` proves that previous-after-next gives back the date
  exactly when its day exists in the next month, and
  `AdvanceThenRetreatMonth` proves the same condition for the displayed
  month.
- The dialog flags are independent. Opening one never closes another, and
  no close resets `selectedDay`.
- A milestone's `completed` is a hard-coded mock field, not computed from
  `progress`.

## Model

| member | source | states |
|---|---|---|
| `Calendar.MonthLength` | frontend/habit-tracker-frontend/src/app/dashboard/page.tsx:71 | a month has 28..31 days, and 29 exactly for February of a Gregorian leap year |
| `Calendar.YearLength` | frontend/habit-tracker-frontend/src/app/dashboard/page.tsx:71 | the ECMAScript year start DayFromYear advances by 366 days exactly after a leap year and by 365 otherwise |
| `Calendar.LeapDayStep` | frontend/habit-tracker-frontend/src/app/dashboard/page.tsx:71 | the leap days counted before a year grow by one exactly after a Gregorian leap year |
| `Calendar.NormalizeDay` | frontend/habit-tracker-frontend/src/app/dashboard/page.tsx:71 | bringing an out-of-range day into its month, one month at a time, always yields an existing date |
| `Calendar.NormalizeDayNumber` | frontend/habit-tracker-frontend/src/app/dashboard/page.tsx:71 | the normalised date has the same day number as the out-of-range day offset |
| `Calendar.MakeDate` | frontend/habit-tracker-frontend/src/app/dashboard/page.tsx:71 | `Date`'s normalisation of any month and day yields an existing date |
| `Calendar.MakeDateIsMakeDay` | frontend/habit-tracker-frontend/src/app/dashboard/page.tsx:71 | MakeDate agrees with ECMAScript MakeDay: its day number is that of the first of the month (month carried into the year) plus d - 1, and any existing date with that number is the result |
| `Calendar.DayNumberInjective` | frontend/habit-tracker-frontend/src/app/dashboard/page.tsx:71 | two existing dates with the same day number are equal, so the normalised date is unique |
| `Calendar.FullYear` | frontend/habit-tracker-frontend/src/app/dashboard/page.tsx:71 | the year `new Date(y, m, d)` works in is never in 0..99 and keeps y's last two digits; a year outside 0..99 is kept |
| `Calendar.ConstructDate` | frontend/habit-tracker-frontend/src/app/dashboard/page.tsx:71 | `new Date(y, m, d)` always yields an existing date; `ConstructExisting` gives its value when the day exists |
| `Calendar.ConstructExisting` | frontend/habit-tracker-frontend/src/app/dashboard/page.tsx:160 | `new Date(y, m, d)` with a day that exists gives back that date, year 0..99 read as 19yy |
| `Calendar.GetDaysInMonth` | frontend/habit-tracker-frontend/src/app/dashboard/page.tsx:70-72 | `getDaysInMonth` is a day count between 1 and 31; `DaysInMonthIsMonthLength` pins it to the month's length |
| `Calendar.DaysInMonthIsMonthLength` | frontend/habit-tracker-frontend/src/app/dashboard/page.tsx:70-72 | `getDaysInMonth(y, m)` ("day 0 of month m + 1") is the length of month m, for every integer y and m |
| `Calendar.DaysInMonthValues` | frontend/habit-tracker-frontend/src/app/dashboard/page.tsx:70-72 | outside years 0..99: 31 or 30 for the fixed-length months, 29 for a leap February and 28 for any other |
| `Calendar.DaysInFebruaryExamples` | frontend/habit-tracker-frontend/src/app/dashboard/page.tsx:70-72 | February has 29 days in 2024 and 2000, and 28 in 2023 and 1900 |
| `Calendar.TwoDigitYearExample` | frontend/habit-tracker-frontend/src/app/dashboard/page.tsx:71 | year 0 is a leap year, yet `getDaysInMonth(0, 1)` is 28, because the constructor reads it as 1900 |
| `Calendar.WeekDay` | frontend/habit-tracker-frontend/src/app/dashboard/page.tsx:75 | `getDay` lies in 0..6 |
| `Calendar.FirstDayOfMonth` | frontend/habit-tracker-frontend/src/app/dashboard/page.tsx:75 | `firstDayOfMonth` lies in 0..6 (Sunday = 0) |
| `Calendar.WeekDayInMonth` | frontend/habit-tracker-frontend/src/app/dashboard/page.tsx:75 | day d of a month falls d - 1 weekdays (mod 7) after the first |
| `Calendar.WeekDayOfNextMonth` | frontend/habit-tracker-frontend/src/app/dashboard/page.tsx:75 | the first of the next month falls MonthLength weekdays (mod 7) after this month's first |
| `Calendar.EpochIsThursday` | frontend/habit-tracker-frontend/src/app/dashboard/page.tsx:75 | day number 0, 1 January 1970, has weekday 4 (Thursday) |
| `Calendar.FirstDayFebruary2024` | frontend/habit-tracker-frontend/src/app/dashboard/page.tsx:75 | `firstDayOfMonth` is 4 (Thursday) for February 2024 |
| `Calendar.FirstDayJanuary2023` | frontend/habit-tracker-frontend/src/app/dashboard/page.tsx:75 | `firstDayOfMonth` is 0 (Sunday) for January 2023 |
| `Calendar.FirstDayJanuary2000` | frontend/habit-tracker-frontend/src/app/dashboard/page.tsx:75 | `firstDayOfMonth` is 6 (Saturday) for January 2000 |
| `Navigation.SetMonth` | frontend/habit-tracker-frontend/src/app/dashboard/page.tsx:54 | `setMonth` always yields an existing date |
| `Navigation.AdvanceMonth` | frontend/habit-tracker-frontend/src/app/dashboard/page.tsx:58-62 | the date `handleNextMonth` stores is an existing date |
| `Navigation.RetreatMonth` | frontend/habit-tracker-frontend/src/app/dashboard/page.tsx:52-56 | the date `handlePreviousMonth` stores is an existing date |
| `Navigation.SetMonthInYear` | frontend/habit-tracker-frontend/src/app/dashboard/page.tsx:54 | `setMonth(m)` with m in 0..11 gives (year, m, day) when the day exists in m, otherwise the overflow into the month after m |
| `Navigation.AdvanceMonthExact` | frontend/habit-tracker-frontend/src/app/dashboard/page.tsx:58-62 | next month: the following month with the same day (December goes to January of year + 1) when the day exists there; otherwise the month after that, on day minus the length of the target month |
| `Navigation.RetreatMonthExact` | frontend/habit-tracker-frontend/src/app/dashboard/page.tsx:52-56 | previous month: the preceding month with the same day (January goes to December of year - 1) when the day exists there, otherwise day - length in the original month |
| `Navigation.AdvanceMonthIndex` | frontend/habit-tracker-frontend/src/app/dashboard/page.tsx:58-62 | the displayed month moves forward by exactly 1, or by 2 when the day overflows |
| `Navigation.RetreatMonthIndex` | frontend/habit-tracker-frontend/src/app/dashboard/page.tsx:52-56 | the displayed month moves back by exactly 1, or stays when the day overflows |
| `Navigation.YearRollover` | frontend/habit-tracker-frontend/src/app/dashboard/page.tsx:52-62 | December advances to January of the next year and January retreats to December of the previous year, day kept |
| `Navigation.AdvanceThenRetreatFits` | frontend/habit-tracker-frontend/src/app/dashboard/page.tsx:52-62 | when the day exists in the next month, previous after next restores the date |
| `Navigation.AdvanceThenRetreat` | frontend/habit-tracker-frontend/src/app/dashboard/page.tsx:52-62 | previous after next restores the date if and only if the day exists in the next month |
| `Navigation.RetreatThenAdvance` | frontend/habit-tracker-frontend/src/app/dashboard/page.tsx:52-62 | next after previous restores the date if and only if the day exists in the previous month |
| `Navigation.AdvanceThenRetreatMonth` | frontend/habit-tracker-frontend/src/app/dashboard/page.tsx:52-62 | previous after next shows the original month again if and only if the day exists in the next month |
| `Navigation.RetreatThenAdvanceMonth` | frontend/habit-tracker-frontend/src/app/dashboard/page.tsx:52-62 | next after previous shows the original month again if and only if the day exists in the previous month |
| `Navigation.EarlyDaysRoundTrip` | frontend/habit-tracker-frontend/src/app/dashboard/page.tsx:52-62 | for days 1..28 the two handlers undo each other in either order |
| `Navigation.JanuaryOverflow` | frontend/habit-tracker-frontend/src/app/dashboard/page.tsx:58-62 | 31 Jan 2023 advances to 3 Mar 2023, which retreats to 3 Feb 2023; 31 Jan 2024 advances to 2 Mar 2024 |
| `Navigation.MarchOverflow` | frontend/habit-tracker-frontend/src/app/dashboard/page.tsx:52-56 | 31 Mar 2023 retreats to 3 Mar 2023 |
| `Grid.BuildCalendarDays` | frontend/habit-tracker-frontend/src/app/dashboard/page.tsx:78-88 | the two loops produce exactly `firstDayOfMonth` nulls followed by 1..daysInMonth |
| `Grid.LayoutShape` | frontend/habit-tracker-frontend/src/app/dashboard/page.tsx:78-88 | the grid has first + n cells, those before index first are null, and index first + i - 1 holds day i |
| `Grid.LayoutIncreasing` | frontend/habit-tracker-frontend/src/app/dashboard/page.tsx:86-88 | the non-null cells are strictly increasing |
| `Grid.MonthGrid` | frontend/habit-tracker-frontend/src/app/dashboard/page.tsx:74-88 | `calendarDays` for a month: a cell is null exactly when its index is below `firstDayOfMonth`; `MonthGridSize` and `MonthGridColumns` give its size and columns |
| `Grid.MonthGridSize` | frontend/habit-tracker-frontend/src/app/dashboard/page.tsx:74-88 | a month's grid has between 28 and 37 cells |
| `Grid.MonthGridColumns` | frontend/habit-tracker-frontend/src/app/dashboard/page.tsx:149-160 | the cell at index k holding day d stands for `new Date(year, month, d)`, whose weekday is k mod 7, the column of its header in Sun..Sat |
| `Habits.Includes` | frontend/habit-tracker-frontend/src/app/dashboard/page.tsx:168 | `includes(x)` is true if and only if some element equals x |
| `Habits.IsCompletedOn` | frontend/habit-tracker-frontend/src/app/dashboard/page.tsx:168 | a habit counts as completed on a day if and only if the day is in its completedDays (also line 346) |
| `Habits.CellDots` | frontend/habit-tracker-frontend/src/app/dashboard/page.tsx:167-175 | the cell of day d shows habit i's dot if and only if d is in its completedDays, one entry per habit in order |
| `Habits.DayDialogDay` | frontend/habit-tracker-frontend/src/app/dashboard/page.tsx:346 | the day looked up is 0 with no selection and the selected day-of-month otherwise |
| `Habits.DayDialogLabels` | frontend/habit-tracker-frontend/src/app/dashboard/page.tsx:338-347 | habit i is labelled "Completed" if and only if the looked-up day is in its completedDays |
| `Habits.NoSelectionShowsMarkComplete` | frontend/habit-tracker-frontend/src/app/dashboard/page.tsx:346 | with no day selected and only positive completed days, every habit shows "Mark Complete" |
| `Habits.DialogAgreesWithCell` | frontend/habit-tracker-frontend/src/app/dashboard/page.tsx:168 | for a selected day, the dialog's "Completed" habits are exactly those with a dot in that day's cell |
| `Habits.MockHabitsInRange` | frontend/habit-tracker-frontend/src/app/dashboard/page.tsx:26-31 | the mock completed days all lie in 1..28, days every month has |
| `Habits.MeditationExample` | frontend/habit-tracker-frontend/src/app/dashboard/page.tsx:27 | "Morning Meditation" is completed on day 5 and not on day 6 |
| `Dashboard.JsDate.Copy` | frontend/habit-tracker-frontend/src/app/dashboard/page.tsx:53 | `new Date(date)` holds the same date |
| `Dashboard.JsDate.Value` | frontend/habit-tracker-frontend/src/app/dashboard/page.tsx:53-55 | the date a `Date` object holds, the state that `Copy` and `SetMonth` are specified by |
| `Dashboard.JsDate.GetMonth` | frontend/habit-tracker-frontend/src/app/dashboard/page.tsx:54 | `getMonth()` is the month of the date the object holds (also line 60) |
| `Dashboard.JsDate.SetMonth` | frontend/habit-tracker-frontend/src/app/dashboard/page.tsx:54 | the object afterwards holds `SetMonth` of its old date |
| `Dashboard.DashboardPage.constructor` | frontend/habit-tracker-frontend/src/app/dashboard/page.tsx:42-47 | the date starts at the given today, nothing is selected and every dialog is closed |
| `Dashboard.DashboardPage.HandlePreviousMonth` | frontend/habit-tracker-frontend/src/app/dashboard/page.tsx:52-56 | the date becomes `RetreatMonth` of the old date; selection and flags unchanged |
| `Dashboard.DashboardPage.HandleNextMonth` | frontend/habit-tracker-frontend/src/app/dashboard/page.tsx:58-62 | the date becomes `AdvanceMonth` of the old date; selection and flags unchanged |
| `Dashboard.DashboardPage.HandleDayClick` | frontend/habit-tracker-frontend/src/app/dashboard/page.tsx:64-67 | selectedDay becomes the day and the day dialog opens; date and the other three flags unchanged |
| `Dashboard.DashboardPage.SetShowAddHabitDialog` | frontend/habit-tracker-frontend/src/app/dashboard/page.tsx:320-323 | only the add-habit flag changes, to the given value (also the button at line 131 and the dialog at line 264); the state invariant holds afterwards exactly when it held before |
| `Dashboard.DashboardPage.SetShowDayDialog` | frontend/habit-tracker-frontend/src/app/dashboard/page.tsx:356 | only the day-dialog flag changes; selectedDay is kept (also the dialog's dismissal at line 329); the state invariant holds afterwards exactly when it held before |
| `Dashboard.DashboardPage.SetShowReminderDialog` | frontend/habit-tracker-frontend/src/app/dashboard/page.tsx:404-407 | only the reminder flag changes; opening it from the day dialog (line 353) or a habit card (line 199) leaves the day dialog open; the state invariant holds afterwards exactly when it held before |
| `Dashboard.DashboardPage.SetShowShareDialog` | frontend/habit-tracker-frontend/src/app/dashboard/page.tsx:461-464 | only the share flag changes (also the share icon at line 101 and the dialog at line 413); the state invariant holds afterwards exactly when it held before |
| `Dashboard.DashboardPage.CalendarDays` | frontend/habit-tracker-frontend/src/app/dashboard/page.tsx:74-88 | `calendarDays` of the displayed date is the layout for its `firstDayOfMonth` and `getDaysInMonth` |
| `Dashboard.DashboardPage.HandleCellClick` | frontend/habit-tracker-frontend/src/app/dashboard/page.tsx:155-161 | a null cell has no handler and changes nothing; a day cell selects (year read by `new Date`, month, day) and opens the day dialog, other flags unchanged |
| `Dashboard.ReminderOverDayDialog` | frontend/habit-tracker-frontend/src/app/dashboard/page.tsx:353-355 | after a day click and "Set Reminder", the day and reminder dialogs are both open and the day stays selected |

## Left out

- Time of day and time zones: the model keeps only the local calendar date of a `Date`. A daylight-saving shift that `setMonth` could cause is not modelled.
- The valid range of `Date` (±8.64e15 ms, beyond which a date is "Invalid Date"): the model's years are unbounded.
- `new Date()`: wall-clock time is an input, so the constructor takes today's date as a parameter.
- Month and weekday names from `toLocaleString` and `toLocaleDateString`: these are locale-dependent library output.
- JSX rendering, styling, the UI component library, `Link` routing, icons and the Tabs component: presentation only.
- The "Mark Complete" buttons: they have no handler, so there is no state change to model.
- Milestones and their `completed` flag: these are hard-coded mock values, and nothing derives them from `progress`.
- Streak counts: display-only mock values.
- The Select and Input fields of the dialogs: they are not connected to any state.
- The login page and the Tailwind configuration: form validation is done by foreign libraries, submission is a timer followed by navigation, and the configuration is static data.
- `Grid.BuildCalendarDays`: takes `nat` arguments. The JavaScript loops would also accept negative bounds (and run zero times), but `firstDayOfMonth` and `daysInMonth` are never negative.
