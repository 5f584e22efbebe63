/**
 * Month navigation: `handleNextMonth` and `handlePreviousMonth` copy the
 * current date and call `setMonth(getMonth() ± 1)` on the copy, so the
 * day-of-month is kept and `Date` normalises a day the target month lacks
 * into the month after it.
 */
module Navigation {
  import opened Calendar

  /** `d.setMonth(m)`: year and day-of-month are kept, then normalised. */
  function SetMonth(d: CalDate, m: int): (r: CalDate)
    ensures ValidDate(r)
  {
    MakeDate(d.year, m, d.day)
  }

  /** The date `handleNextMonth` stores. */
  function AdvanceMonth(d: CalDate): (r: CalDate)
    ensures ValidDate(r)
  {
    SetMonth(d, d.month + 1)
  }

  /** The date `handlePreviousMonth` stores. */
  function RetreatMonth(d: CalDate): (r: CalDate)
    ensures ValidDate(r)
  {
    SetMonth(d, d.month - 1)
  }

  /** Months counted on one line, so that a step of one month is a step of one. */
  function MonthIndex(d: CalDate): int {
    12 * d.year + d.month
  }

  /** Whether day-of-month `day` exists in month (y, m). */
  predicate DayExists(y: int, m: int, day: int)
    requires 0 <= m < 12
  {
    1 <= day <= MonthLength(y, m)
  }

  /** `setMonth(m)` with m in 0..11 to a month that has the day lands on it;
      a day the month lacks spills over into the month after it. */
  lemma SetMonthInYear(d: CalDate, m: int)
    requires ValidDate(d) && 0 <= m < 12
    ensures DayExists(d.year, m, d.day) ==> SetMonth(d, m) == CalDate(d.year, m, d.day)
    ensures !DayExists(d.year, m, d.day) ==>
              var (ny, nm) := NextMonthOf(d.year, m);
              SetMonth(d, m) == CalDate(ny, nm, d.day - MonthLength(d.year, m))
  {
    assert m / 12 == 0 && m % 12 == m;
    if !DayExists(d.year, m, d.day) {
      var (ny, nm) := NextMonthOf(d.year, m);
      assert SetMonth(d, m) == NormalizeDay(ny, nm, d.day - MonthLength(d.year, m));
    }
  }

  /** Next month: the month index moves by exactly one, with rollover from
      December to January of the next year, when the day exists there;
      otherwise the date overflows into the month after. */
  lemma AdvanceMonthExact(d: CalDate)
    requires ValidDate(d)
    ensures var (ty, tm) := NextMonthOf(d.year, d.month);
            if DayExists(ty, tm, d.day) then AdvanceMonth(d) == CalDate(ty, tm, d.day)
            else
              var (oy, om) := NextMonthOf(ty, tm);
              AdvanceMonth(d) == CalDate(oy, om, d.day - MonthLength(ty, tm))
  {
    var (ty, tm) := NextMonthOf(d.year, d.month);
    if d.month == 11 {
      assert (d.month + 1) / 12 == 1 && (d.month + 1) % 12 == 0;
      assert AdvanceMonth(d) == NormalizeDay(ty, tm, d.day);
    } else {
      SetMonthInYear(d, d.month + 1);
    }
  }

  /** Previous month: the month index moves back by exactly one, with
      rollover from January to December of the previous year, when the day
      exists there; otherwise the date overflows into the month after the
      target, which is the month it started in. */
  lemma RetreatMonthExact(d: CalDate)
    requires ValidDate(d)
    ensures var (ty, tm) := PrevMonthOf(d.year, d.month);
            if DayExists(ty, tm, d.day) then RetreatMonth(d) == CalDate(ty, tm, d.day)
            else RetreatMonth(d) == CalDate(d.year, d.month, d.day - MonthLength(ty, tm))
  {
    var (ty, tm) := PrevMonthOf(d.year, d.month);
    if d.month == 0 {
      assert (d.month - 1) / 12 == -1 && (d.month - 1) % 12 == 11;
      assert RetreatMonth(d) == NormalizeDay(ty, tm, d.day);
    } else {
      SetMonthInYear(d, d.month - 1);
    }
  }

  /** The displayed month moves forward by one, or by two when the day
      overflows (31 January to early March). */
  lemma AdvanceMonthIndex(d: CalDate)
    requires ValidDate(d)
    ensures var (ty, tm) := NextMonthOf(d.year, d.month);
            MonthIndex(AdvanceMonth(d)) == MonthIndex(d) + (if DayExists(ty, tm, d.day) then 1 else 2)
  {
    AdvanceMonthExact(d);
  }

  /** The displayed month moves back by one, or stays put when the day
      overflows (31 March to early March). */
  lemma RetreatMonthIndex(d: CalDate)
    requires ValidDate(d)
    ensures var (ty, tm) := PrevMonthOf(d.year, d.month);
            MonthIndex(RetreatMonth(d)) == MonthIndex(d) - (if DayExists(ty, tm, d.day) then 1 else 0)
  {
    RetreatMonthExact(d);
  }

  /** December and January have 31 days, so the year boundary never overflows. */
  lemma YearRollover(y: int, day: int)
    requires 1 <= day <= 31
    ensures AdvanceMonth(CalDate(y, 11, day)) == CalDate(y + 1, 0, day)
    ensures RetreatMonth(CalDate(y, 0, day)) == CalDate(y - 1, 11, day)
  {
    AdvanceMonthExact(CalDate(y, 11, day));
    RetreatMonthExact(CalDate(y, 0, day));
  }

  lemma AdvanceThenRetreatFits(d: CalDate)
    requires ValidDate(d)
    requires var (ty, tm) := NextMonthOf(d.year, d.month); DayExists(ty, tm, d.day)
    ensures RetreatMonth(AdvanceMonth(d)) == d
  {
    var (ty, tm) := NextMonthOf(d.year, d.month);
    AdvanceMonthExact(d);
    var a := CalDate(ty, tm, d.day);
    RetreatMonthExact(a);
    assert PrevMonthOf(ty, tm) == (d.year, d.month);
  }

  /** Advancing then retreating is the identity exactly when the day exists
      in the next month. */
  lemma AdvanceThenRetreat(d: CalDate)
    requires ValidDate(d)
    ensures var (ty, tm) := NextMonthOf(d.year, d.month);
            RetreatMonth(AdvanceMonth(d)) == d <==> DayExists(ty, tm, d.day)
  {
    var (ty, tm) := NextMonthOf(d.year, d.month);
    if DayExists(ty, tm, d.day) {
      AdvanceThenRetreatFits(d);
    } else {
      AdvanceMonthIndex(d);
      RetreatMonthIndex(AdvanceMonth(d));
    }
  }

  /** Retreating then advancing is the identity exactly when the day exists
      in the previous month. */
  lemma RetreatThenAdvance(d: CalDate)
    requires ValidDate(d)
    ensures var (ty, tm) := PrevMonthOf(d.year, d.month);
            AdvanceMonth(RetreatMonth(d)) == d <==> DayExists(ty, tm, d.day)
  {
    var (ty, tm) := PrevMonthOf(d.year, d.month);
    RetreatMonthExact(d);
    var r := RetreatMonth(d);
    if DayExists(ty, tm, d.day) {
      AdvanceMonthExact(r);
      assert NextMonthOf(ty, tm) == (d.year, d.month);
    } else {
      RetreatMonthIndex(d);
      AdvanceMonthIndex(r);
      assert MonthIndex(AdvanceMonth(r)) >= MonthIndex(d) + 1;
    }
  }

  /** At the level of the displayed month: previous after next shows the
      original month again exactly when the day exists in the next month
      (otherwise it shows the month after). */
  lemma AdvanceThenRetreatMonth(d: CalDate)
    requires ValidDate(d)
    ensures var (ty, tm) := NextMonthOf(d.year, d.month);
            MonthIndex(RetreatMonth(AdvanceMonth(d))) == MonthIndex(d) <==> DayExists(ty, tm, d.day)
  {
    var (ty, tm) := NextMonthOf(d.year, d.month);
    if DayExists(ty, tm, d.day) {
      AdvanceThenRetreatFits(d);
    } else {
      AdvanceMonthIndex(d);
      RetreatMonthIndex(AdvanceMonth(d));
    }
  }

  /** Next after previous shows the original month again exactly when the
      day exists in the previous month (otherwise it shows the month after). */
  lemma RetreatThenAdvanceMonth(d: CalDate)
    requires ValidDate(d)
    ensures var (ty, tm) := PrevMonthOf(d.year, d.month);
            MonthIndex(AdvanceMonth(RetreatMonth(d))) == MonthIndex(d) <==> DayExists(ty, tm, d.day)
  {
    var (ty, tm) := PrevMonthOf(d.year, d.month);
    RetreatThenAdvance(d);
    if !DayExists(ty, tm, d.day) {
      RetreatMonthIndex(d);
      AdvanceMonthIndex(RetreatMonth(d));
    }
  }

  /** Every month has a 28th, so for days 1..28 the two handlers undo each other. */
  lemma EarlyDaysRoundTrip(d: CalDate)
    requires ValidDate(d) && d.day <= 28
    ensures RetreatMonth(AdvanceMonth(d)) == d
    ensures AdvanceMonth(RetreatMonth(d)) == d
  {
    AdvanceThenRetreat(d);
    RetreatThenAdvance(d);
  }

  /** 31 January 2023 advances to 3 March, and back to 3 February, not to
      January. */
  lemma JanuaryOverflow()
    ensures AdvanceMonth(CalDate(2023, 0, 31)) == CalDate(2023, 2, 3)
    ensures RetreatMonth(CalDate(2023, 2, 3)) == CalDate(2023, 1, 3)
    ensures AdvanceMonth(CalDate(2024, 0, 31)) == CalDate(2024, 2, 2)
  {
    AdvanceMonthExact(CalDate(2023, 0, 31));
    RetreatMonthExact(CalDate(2023, 2, 3));
    AdvanceMonthExact(CalDate(2024, 0, 31));
  }

  /** 31 March 2023 retreats to 3 March: the calendar stays on March. */
  lemma MarchOverflow()
    ensures RetreatMonth(CalDate(2023, 2, 31)) == CalDate(2023, 2, 3)
  {
    RetreatMonthExact(CalDate(2023, 2, 31));
  }
}
