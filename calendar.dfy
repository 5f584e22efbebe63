/**
 * The calendar arithmetic the dashboard gets from JavaScript's `Date`:
 * proleptic Gregorian dates as (year, zero-based month, day-of-month),
 * day numbers counted from 1 January 1970 as ECMAScript's DayFromYear and
 * MakeDay define them, the normalisation that `new Date(y, m, d)` and
 * `setMonth` apply to out-of-range months and days, and the weekday
 * (Sunday = 0) that `getDay` reports.
 */
module Calendar {

  /** A calendar date; `month` is zero-based as in `Date.prototype.getMonth`. */
  datatype CalDate = CalDate(year: int, month: int, day: int)

  predicate IsLeapYear(y: int) {
    y % 4 == 0 && (y % 100 != 0 || y % 400 == 0)
  }

  /** Number of days of month `m` (0 = January) of year `y`. */
  function MonthLength(y: int, m: int): (n: int)
    requires 0 <= m < 12
    ensures 28 <= n <= 31
    ensures n == 29 <==> m == 1 && IsLeapYear(y)
  {
    if m == 1 then (if IsLeapYear(y) then 29 else 28)
    else if m == 3 || m == 5 || m == 8 || m == 10 then 30
    else 31
  }

  function DaysInYear(y: int): int {
    if IsLeapYear(y) then 366 else 365
  }

  /** A date that names an existing day. */
  predicate ValidDate(d: CalDate) {
    0 <= d.month < 12 && 1 <= d.day <= MonthLength(d.year, d.month)
  }

  /** The month after (y, m), with rollover from December to January. */
  function NextMonthOf(y: int, m: int): (int, int)
    requires 0 <= m < 12
  {
    if m == 11 then (y + 1, 0) else (y, m + 1)
  }

  /** The month before (y, m), with rollover from January to December. */
  function PrevMonthOf(y: int, m: int): (int, int)
    requires 0 <= m < 12
  {
    if m == 0 then (y - 1, 11) else (y, m - 1)
  }

  /** Leap days before 1 January of year `y`, counted from 1970. */
  function LeapDaysBefore(y: int): int {
    (y - 1969) / 4 - (y - 1901) / 100 + (y - 1601) / 400
  }

  /** Day number of 1 January of year `y` (ECMAScript DayFromYear; `/` on a
      positive divisor is the floor division the standard uses). */
  function DayFromYear(y: int): int {
    365 * (y - 1970) + LeapDaysBefore(y)
  }

  /** Days of year `y` before the first of month `m`. */
  function DaysBeforeMonth(y: int, m: int): int
    requires 0 <= m < 12
  {
    var leap := if IsLeapYear(y) then 1 else 0;
    if m == 0 then 0
    else if m == 1 then 31
    else if m == 2 then 59 + leap
    else if m == 3 then 90 + leap
    else if m == 4 then 120 + leap
    else if m == 5 then 151 + leap
    else if m == 6 then 181 + leap
    else if m == 7 then 212 + leap
    else if m == 8 then 243 + leap
    else if m == 9 then 273 + leap
    else if m == 10 then 304 + leap
    else 334 + leap
  }

  /** Day number of day `d` of month `m` of year `y`; `d` may lie outside the
      month, as in ECMAScript MakeDay (the first of the month plus d - 1). */
  function DayNumber(y: int, m: int, d: int): int
    requires 0 <= m < 12
  {
    DayFromYear(y) + DaysBeforeMonth(y, m) + d - 1
  }

  function DayNumberOf(d: CalDate): int
    requires 0 <= d.month < 12
  {
    DayNumber(d.year, d.month, d.day)
  }

  /** Years divisible by 4 add one to the floor of (y - 1969) / 4. */
  lemma QuarterStep(y: int)
    ensures (y + 1 - 1969) / 4 == (y - 1969) / 4 + (if y % 4 == 0 then 1 else 0)
  {
    var k := y - 1969;
    var a, b := k / 4, k % 4;
    assert k == 4 * a + b;
    assert y == 4 * (a + 492) + (b + 1);
    if b == 3 {
      assert k + 1 == 4 * (a + 1);
      assert y == 4 * (a + 493);
    } else {
      assert k + 1 == 4 * a + (b + 1);
    }
  }

  /** Years divisible by 100 add one to the floor of (y - 1901) / 100. */
  lemma CenturyStep(y: int)
    ensures (y + 1 - 1901) / 100 == (y - 1901) / 100 + (if y % 100 == 0 then 1 else 0)
  {
    var k := y - 1901;
    var a, b := k / 100, k % 100;
    assert k == 100 * a + b;
    if b == 99 {
      assert k + 1 == 100 * (a + 1);
      assert y == 100 * (a + 20);
    } else {
      assert k + 1 == 100 * a + (b + 1);
      assert y == 100 * (a + 19) + (b + 1);
    }
  }

  /** Years divisible by 400 add one to the floor of (y - 1601) / 400. */
  lemma QuadricentennialStep(y: int)
    ensures (y + 1 - 1601) / 400 == (y - 1601) / 400 + (if y % 400 == 0 then 1 else 0)
  {
    var k := y - 1601;
    var a, b := k / 400, k % 400;
    assert k == 400 * a + b;
    if b == 399 {
      assert k + 1 == 400 * (a + 1);
      assert y == 400 * (a + 5);
    } else {
      assert k + 1 == 400 * a + (b + 1);
      assert y == 400 * (a + 4) + (b + 1);
    }
  }

  lemma CenturyIsQuarter(y: int)
    ensures y % 100 == 0 ==> y % 4 == 0
  {
    var c := y / 100;
    assert y == 100 * c + y % 100;
    if y % 100 == 0 {
      var k := 25 * c;
      assert y == 4 * k;
    }
  }

  lemma QuadricentennialIsCentury(y: int)
    ensures y % 400 == 0 ==> y % 100 == 0
  {
    var q := y / 400;
    assert y == 400 * q + y % 400;
    if y % 400 == 0 {
      var k := 4 * q;
      assert y == 100 * k;
    }
  }

  /** One more leap day is counted exactly after a Gregorian leap year. */
  lemma LeapDayStep(y: int)
    ensures LeapDaysBefore(y + 1) == LeapDaysBefore(y) + (if IsLeapYear(y) then 1 else 0)
  {
    QuarterStep(y);
    CenturyStep(y);
    QuadricentennialStep(y);
    CenturyIsQuarter(y);
    QuadricentennialIsCentury(y);
  }

  /** A year is 366 days long exactly when it is a Gregorian leap year. */
  lemma YearLength(y: int)
    ensures DayFromYear(y + 1) == DayFromYear(y) + DaysInYear(y)
  {
    LeapDayStep(y);
  }

  /** The first of the next month comes MonthLength days after the first. */
  lemma MonthStep(y: int, m: int)
    requires 0 <= m < 12
    ensures var (ny, nm) := NextMonthOf(y, m);
            DayNumber(ny, nm, 1) == DayNumber(y, m, 1) + MonthLength(y, m)
  {
    if m == 11 {
      YearLength(y);
    }
  }

  /**
   * Brings a day-of-month that lies before or after month (y, m) into range,
   * one month at a time, as `Date` does.
   */
  function NormalizeDay(y: int, m: int, d: int): (r: CalDate)
    requires 0 <= m < 12
    ensures ValidDate(r)
    decreases d < 1, if d < 1 then -d else d
  {
    if d < 1 then
      var (py, pm) := PrevMonthOf(y, m);
      NormalizeDay(py, pm, d + MonthLength(py, pm))
    else if d > MonthLength(y, m) then
      var (ny, nm) := NextMonthOf(y, m);
      NormalizeDay(ny, nm, d - MonthLength(y, m))
    else
      CalDate(y, m, d)
  }

  /** Normalising keeps the day number: the result is the existing date
      that the day offset denotes. */
  lemma {:induction false} NormalizeDayNumber(y: int, m: int, d: int)
    requires 0 <= m < 12
    ensures DayNumberOf(NormalizeDay(y, m, d)) == DayNumber(y, m, d)
    decreases d < 1, if d < 1 then -d else d
  {
    if d < 1 {
      var (py, pm) := PrevMonthOf(y, m);
      MonthStep(py, pm);
      NormalizeDayNumber(py, pm, d + MonthLength(py, pm));
    } else if d > MonthLength(y, m) {
      var (ny, nm) := NextMonthOf(y, m);
      MonthStep(y, m);
      NormalizeDayNumber(ny, nm, d - MonthLength(y, m));
    }
  }

  /**
   * The date ECMAScript MakeDay(y, m, d) denotes, for any integers: the month
   * is first reduced modulo 12 into the year, then the day is counted from
   * the first of that month.
   */
  function MakeDate(y: int, m: int, d: int): (r: CalDate)
    ensures ValidDate(r)
  {
    NormalizeDay(y + m / 12, m % 12, d)
  }

  /** MakeDate agrees with ECMAScript's MakeDay: its day number is that of
      the first of the (carried) month plus d - 1, and it is the only
      existing date with that number. */
  lemma MakeDateIsMakeDay(y: int, m: int, d: int, c: CalDate)
    ensures DayNumberOf(MakeDate(y, m, d)) == DayNumber(y + m / 12, m % 12, 1) + d - 1
    ensures ValidDate(c) && DayNumberOf(c) == DayNumber(y + m / 12, m % 12, 1) + d - 1 ==>
              MakeDate(y, m, d) == c
  {
    NormalizeDayNumber(y + m / 12, m % 12, d);
    if ValidDate(c) && DayNumberOf(c) == DayNumber(y + m / 12, m % 12, 1) + d - 1 {
      DayNumberInjective(MakeDate(y, m, d), c);
    }
  }

  /** `new Date(y, m, d)` reads a year 0..99 as 1900 + y. */
  function FullYear(y: int): (r: int)
    ensures !(0 <= r <= 99) && r % 100 == y % 100
    ensures !(0 <= y <= 99) ==> r == y
  {
    if 0 <= y <= 99 then 1900 + y else y
  }

  /** `new Date(y, m, d)`, at local midnight. */
  function ConstructDate(y: int, m: int, d: int): (r: CalDate)
    ensures ValidDate(r)
  {
    MakeDate(FullYear(y), m, d)
  }

  /** `Date.prototype.getDay`: 0 = Sunday .. 6 = Saturday (ECMAScript WeekDay). */
  function WeekDay(d: CalDate): (w: int)
    requires ValidDate(d)
    ensures 0 <= w <= 6
  {
    (DayNumberOf(d) + 4) % 7
  }

  /** `getDaysInMonth` (page.tsx): `new Date(year, month + 1, 0).getDate()`. */
  function GetDaysInMonth(year: int, month: int): (n: int)
    ensures 1 <= n <= 31
  {
    ConstructDate(year, month + 1, 0).day
  }

  /** `firstDayOfMonth` (page.tsx): `new Date(year, month, 1).getDay()`. */
  function FirstDayOfMonth(year: int, month: int): (w: int)
    ensures 0 <= w <= 6
  {
    WeekDay(ConstructDate(year, month, 1))
  }

  /** Day numbers of existing dates in later years are larger: a year has at least 365 days. */
  lemma {:induction false} DayFromYearGrows(y1: int, y2: int)
    requires y1 <= y2
    ensures DayFromYear(y1) + 365 * (y2 - y1) <= DayFromYear(y2)
    decreases y2 - y1
  {
    if y1 < y2 {
      YearLength(y1);
      DayFromYearGrows(y1 + 1, y2);
    }
  }

  /** Months before `m2` cover at least month `m1` in full when m1 < m2. */
  lemma DaysBeforeMonthGrows(y: int, m1: int, m2: int)
    requires 0 <= m1 < m2 < 12
    ensures DaysBeforeMonth(y, m1) + MonthLength(y, m1) <= DaysBeforeMonth(y, m2)
  {
  }

  /** Every existing date of year y has a day number within that year. */
  lemma DayNumberWithinYear(d: CalDate)
    requires ValidDate(d)
    ensures DayFromYear(d.year) <= DayNumberOf(d) < DayFromYear(d.year + 1)
  {
    YearLength(d.year);
  }

  /** An existing date of an earlier year has a smaller day number. */
  lemma EarlierYearSmaller(a: CalDate, b: CalDate)
    requires ValidDate(a) && ValidDate(b) && a.year < b.year
    ensures DayNumberOf(a) < DayNumberOf(b)
  {
    DayNumberWithinYear(a);
    DayNumberWithinYear(b);
    DayFromYearGrows(a.year + 1, b.year);
  }

  /** An existing date of an earlier month of the same year has a smaller day number. */
  lemma EarlierMonthSmaller(a: CalDate, b: CalDate)
    requires ValidDate(a) && ValidDate(b) && a.year == b.year && a.month < b.month
    ensures DayNumberOf(a) < DayNumberOf(b)
  {
    DaysBeforeMonthGrows(a.year, a.month, b.month);
  }

  /** Distinct existing dates have distinct day numbers, so the day number
      that MakeDateIsMakeDay states determines the date. */
  lemma DayNumberInjective(a: CalDate, b: CalDate)
    requires ValidDate(a) && ValidDate(b)
    requires DayNumberOf(a) == DayNumberOf(b)
    ensures a == b
  {
    if a.year < b.year {
      EarlierYearSmaller(a, b);
    } else if b.year < a.year {
      EarlierYearSmaller(b, a);
    } else if a.month < b.month {
      EarlierMonthSmaller(a, b);
    } else if b.month < a.month {
      EarlierMonthSmaller(b, a);
    }
  }

  /** `new Date(y, m, d)` with a day that exists in the month gives that
      day back, the year 0..99 read as 19yy and the month carried into the
      year. */
  lemma ConstructExisting(y: int, m: int, d: int)
    requires 1 <= d <= MonthLength(FullYear(y) + m / 12, m % 12)
    ensures ConstructDate(y, m, d) == CalDate(FullYear(y) + m / 12, m % 12, d)
  {
  }

  /** `getDaysInMonth(y, m)` is the length of month m of the year `new Date`
      reads y as (month indices outside 0..11 carry into the year). */
  lemma DaysInMonthIsMonthLength(y: int, m: int)
    ensures GetDaysInMonth(y, m) == MonthLength(FullYear(y) + m / 12, m % 12)
  {
    var Y, M := FullYear(y) + (m + 1) / 12, (m + 1) % 12;
    var (py, pm) := PrevMonthOf(Y, M);
    assert py == FullYear(y) + m / 12 && pm == m % 12;
    assert ConstructDate(y, m + 1, 0) == NormalizeDay(Y, M, 0);
    assert NormalizeDay(Y, M, 0) == NormalizeDay(py, pm, MonthLength(py, pm));
  }

  /** The values the Gregorian calendar prescribes, for every year outside 0..99. */
  lemma DaysInMonthValues(y: int, m: int)
    requires 0 <= m < 12 && !(0 <= y <= 99)
    ensures m == 1 ==> GetDaysInMonth(y, m) == (if IsLeapYear(y) then 29 else 28)
    ensures m in {3, 5, 8, 10} ==> GetDaysInMonth(y, m) == 30
    ensures m in {0, 2, 4, 6, 7, 9, 11} ==> GetDaysInMonth(y, m) == 31
  {
    DaysInMonthIsMonthLength(y, m);
  }

  lemma DaysInFebruaryExamples()
    ensures GetDaysInMonth(2024, 1) == 29 && GetDaysInMonth(2023, 1) == 28
    ensures GetDaysInMonth(2000, 1) == 29 && GetDaysInMonth(1900, 1) == 28
  {
    DaysInMonthIsMonthLength(2024, 1);
    DaysInMonthIsMonthLength(2023, 1);
    DaysInMonthIsMonthLength(2000, 1);
    DaysInMonthIsMonthLength(1900, 1);
  }

  /** Years 0..99 are read as 1900..1999: February of year 0 (a leap year)
      is reported with 28 days, those of 1900. */
  lemma TwoDigitYearExample()
    ensures IsLeapYear(0) && GetDaysInMonth(0, 1) == 28
  {
    DaysInMonthIsMonthLength(0, 1);
  }

  lemma ModSevenShift(a: int, b: int)
    ensures (a % 7 + b) % 7 == (a + b) % 7
  {
    var q := a / 7;
    assert a == 7 * q + a % 7;
    assert a + b == 7 * q + (a % 7 + b);
    assert (a + b) % 7 == (a % 7 + b) % 7 by {
      var c := a % 7 + b;
      assert c == 7 * (c / 7) + c % 7;
      assert a + b == 7 * (q + c / 7) + c % 7;
    }
  }

  /** Day d of a month falls d - 1 weekdays after the first. */
  lemma WeekDayInMonth(y: int, m: int, d: int)
    requires ValidDate(CalDate(y, m, d))
    ensures WeekDay(CalDate(y, m, d)) == (WeekDay(CalDate(y, m, 1)) + d - 1) % 7
  {
    ModSevenShift(DayNumber(y, m, 1) + 4, d - 1);
  }

  /** The first of the next month falls MonthLength weekdays after the first. */
  lemma WeekDayOfNextMonth(y: int, m: int)
    requires 0 <= m < 12
    ensures var (ny, nm) := NextMonthOf(y, m);
            WeekDay(CalDate(ny, nm, 1)) == (WeekDay(CalDate(y, m, 1)) + MonthLength(y, m)) % 7
  {
    MonthStep(y, m);
    ModSevenShift(DayNumber(y, m, 1) + 4, MonthLength(y, m));
  }

  /** 1 January 1970, day number 0, was a Thursday. */
  lemma EpochIsThursday()
    ensures WeekDay(CalDate(1970, 0, 1)) == 4
  {
  }

  /** 1 February 2024 was a Thursday. */
  lemma FirstDayFebruary2024()
    ensures FirstDayOfMonth(2024, 1) == 4
  {
    ConstructExisting(2024, 1, 1);
    assert DayNumber(2024, 1, 1) == 19754;
  }

  /** 1 January 2023 was a Sunday. */
  lemma FirstDayJanuary2023()
    ensures FirstDayOfMonth(2023, 0) == 0
  {
    ConstructExisting(2023, 0, 1);
    assert DayNumber(2023, 0, 1) == 19358;
  }

  /** 1 January 2000 was a Saturday. */
  lemma FirstDayJanuary2000()
    ensures FirstDayOfMonth(2000, 0) == 6
  {
    ConstructExisting(2000, 0, 1);
    assert DayNumber(2000, 0, 1) == 10957;
  }
}
