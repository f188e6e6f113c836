/**
 * The calendar-window helpers of utility.go: the start of the previous,
 * current or next day, month or year of a time, each one call of time.Date
 * whose day or month argument may be out of range by one.
 */
module Utility {
  import opened CivilTime

  /** Midnight of the day after t's calendar day. */
  function StartOfNextDay(t: Time): (r: Time)
    requires t.Valid()
    ensures r.Valid() && r.IsMidnight() && r.loc == t.loc
    ensures DayOf(r) == DayOf(t) + 1
  {
    var r := Date(t.year, t.month, t.day + 1, 0, 0, 0, 0, t.loc);
    MonthIndexRoundTrip(t.year, t.month);
    MidnightAt(r, DayOf(t) + 1);
    r
  }

  /** Midnight of t's own calendar day. */
  function StartOfThisDay(t: Time): (r: Time)
    requires t.Valid()
    ensures r.Valid() && r.IsMidnight() && r.loc == t.loc
    ensures DayOf(r) == DayOf(t)
  {
    var r := Date(t.year, t.month, t.day, 0, 0, 0, 0, t.loc);
    MonthIndexRoundTrip(t.year, t.month);
    MidnightAt(r, DayOf(t));
    r
  }

  /** Midnight of the day before t's calendar day. */
  function StartOfPrevDay(t: Time): (r: Time)
    requires t.Valid()
    ensures r.Valid() && r.IsMidnight() && r.loc == t.loc
    ensures DayOf(r) == DayOf(t) - 1
  {
    var r := Date(t.year, t.month, t.day - 1, 0, 0, 0, 0, t.loc);
    MonthIndexRoundTrip(t.year, t.month);
    MidnightAt(r, DayOf(t) - 1);
    r
  }

  /** Midnight of the first day of the month before t's. */
  function StartOfPrevMonth(t: Time): (r: Time)
    requires t.Valid()
    ensures r.Valid() && r.IsMidnight() && r.loc == t.loc && r.day == 1
    ensures MonthIndex(r.year, r.month) == MonthIndex(t.year, t.month) - 1
  {
    var r := Date(t.year, t.month - 1, 1, 0, 0, 0, 0, t.loc);
    MidnightAt(r, MonthStart(MonthIndex(t.year, t.month - 1)));
    MonthStartAt(r, MonthIndex(t.year, t.month - 1));
    r
  }

  /** Midnight of the first day of t's month. */
  function StartOfThisMonth(t: Time): (r: Time)
    requires t.Valid()
    ensures r.Valid() && r.IsMidnight() && r.loc == t.loc && r.day == 1
    ensures MonthIndex(r.year, r.month) == MonthIndex(t.year, t.month)
  {
    var r := Date(t.year, t.month, 1, 0, 0, 0, 0, t.loc);
    MidnightAt(r, MonthStart(MonthIndex(t.year, t.month)));
    MonthStartAt(r, MonthIndex(t.year, t.month));
    r
  }

  /** Midnight of the first day of the month after t's. */
  function StartOfNextMonth(t: Time): (r: Time)
    requires t.Valid()
    ensures r.Valid() && r.IsMidnight() && r.loc == t.loc && r.day == 1
    ensures MonthIndex(r.year, r.month) == MonthIndex(t.year, t.month) + 1
  {
    var r := Date(t.year, t.month + 1, 1, 0, 0, 0, 0, t.loc);
    MidnightAt(r, MonthStart(MonthIndex(t.year, t.month + 1)));
    MonthStartAt(r, MonthIndex(t.year, t.month + 1));
    r
  }

  /** Midnight of January 1st of the year before t's. */
  function StartOfPrevYear(t: Time): (r: Time)
    requires t.Valid()
    ensures r.Valid() && r.IsMidnight() && r.loc == t.loc
    ensures r.year == t.year - 1 && r.month == 1 && r.day == 1
  {
    var r := Date(t.year - 1, 1, 1, 0, 0, 0, 0, t.loc);
    MidnightAt(r, MonthStart(MonthIndex(t.year - 1, 1)));
    MonthStartAt(r, MonthIndex(t.year - 1, 1));
    r
  }

  /** Midnight of January 1st of t's year. */
  function StartOfThisYear(t: Time): (r: Time)
    requires t.Valid()
    ensures r.Valid() && r.IsMidnight() && r.loc == t.loc
    ensures r.year == t.year && r.month == 1 && r.day == 1
  {
    var r := Date(t.year, 1, 1, 0, 0, 0, 0, t.loc);
    MidnightAt(r, MonthStart(MonthIndex(t.year, 1)));
    MonthStartAt(r, MonthIndex(t.year, 1));
    r
  }

  /** Midnight of January 1st of the year after t's. */
  function StartOfNextYear(t: Time): (r: Time)
    requires t.Valid()
    ensures r.Valid() && r.IsMidnight() && r.loc == t.loc
    ensures r.year == t.year + 1 && r.month == 1 && r.day == 1
  {
    var r := Date(t.year + 1, 1, 1, 0, 0, 0, 0, t.loc);
    MidnightAt(r, MonthStart(MonthIndex(t.year + 1, 1)));
    MonthStartAt(r, MonthIndex(t.year + 1, 1));
    r
  }

  function Midnight(year: int, month: int, day: int, loc: Location): Time {
    Time(year, month, day, 0, 0, 0, 0, loc)
  }

  /** Whether u lies in the half-open window [start, end). */
  predicate InWindow(u: Time, start: Time, end: Time) {
    AtOrBefore(start, u) && Before(u, end)
  }

  // ---------------------------------------------------------------------------
  // Day helpers

  /** StartOfThisDay keeps the date and clears the clock. */
  lemma ThisDayIs(t: Time)
    requires t.Valid()
    ensures StartOfThisDay(t) == Midnight(t.year, t.month, t.day, t.loc)
  {
    MidnightDetermined(StartOfThisDay(t), Midnight(t.year, t.month, t.day, t.loc));
  }

  /** StartOfNextDay stays in the month, or rolls into day 1 of the next month (and year). */
  lemma NextDayCases(t: Time)
    requires t.Valid()
    ensures StartOfNextDay(t) ==
      if t.day < DaysIn(t.year, t.month) then Midnight(t.year, t.month, t.day + 1, t.loc)
      else Midnight(NextMonth(t.year, t.month).0, NextMonth(t.year, t.month).1, 1, t.loc)
  {
    if t.day < DaysIn(t.year, t.month) {
      MidnightDetermined(StartOfNextDay(t), Midnight(t.year, t.month, t.day + 1, t.loc));
    } else {
      MonthStep(t.year, t.month);
      var (ny, nm) := NextMonth(t.year, t.month);
      MidnightDetermined(StartOfNextDay(t), Midnight(ny, nm, 1, t.loc));
    }
  }

  /** StartOfPrevDay stays in the month, or rolls back to the last day of the previous month. */
  lemma PrevDayCases(t: Time)
    requires t.Valid()
    ensures StartOfPrevDay(t) ==
      if t.day > 1 then Midnight(t.year, t.month, t.day - 1, t.loc)
      else
        var (py, pm) := PrevMonth(t.year, t.month);
        Midnight(py, pm, DaysIn(py, pm), t.loc)
  {
    if t.day > 1 {
      MidnightDetermined(StartOfPrevDay(t), Midnight(t.year, t.month, t.day - 1, t.loc));
    } else {
      var (py, pm) := PrevMonth(t.year, t.month);
      MonthStep(py, pm);
      MidnightDetermined(StartOfPrevDay(t), Midnight(py, pm, DaysIn(py, pm), t.loc));
    }
  }

  /** The last day of a month is followed by day 1 of the next month. */
  lemma NextDayAtMonthEnd(t: Time)
    requires t.Valid() && t.day == DaysIn(t.year, t.month)
    ensures StartOfNextDay(t).day == 1
    ensures MonthIndex(StartOfNextDay(t).year, StartOfNextDay(t).month) == MonthIndex(t.year, t.month) + 1
  {
    NextDayCases(t);
  }

  /** 31 December is followed by 1 January of the next year. */
  lemma NextDayAtYearEnd(t: Time)
    requires t.Valid() && t.month == 12 && t.day == 31
    ensures StartOfNextDay(t) == Midnight(t.year + 1, 1, 1, t.loc)
  {
    NextDayCases(t);
  }

  /** In a leap year 28 February is followed by 29 February. */
  lemma NextDayLeapFebruary(t: Time)
    requires t.Valid() && IsLeap(t.year) && t.month == 2 && t.day == 28
    ensures StartOfNextDay(t) == Midnight(t.year, 2, 29, t.loc)
  {
    NextDayCases(t);
  }

  /** Day 1 is preceded by the last day of the previous month. */
  lemma PrevDayOfFirst(t: Time)
    requires t.Valid() && t.day == 1
    ensures var r := StartOfPrevDay(t);
            r.day == DaysIn(r.year, r.month) &&
            MonthIndex(r.year, r.month) == MonthIndex(t.year, t.month) - 1
  {
    PrevDayCases(t);
  }

  /** 1 January is preceded by 31 December of the previous year. */
  lemma PrevDayAtYearStart(t: Time)
    requires t.Valid() && t.month == 1 && t.day == 1
    ensures StartOfPrevDay(t) == Midnight(t.year - 1, 12, 31, t.loc)
  {
    PrevDayCases(t);
  }

  /** StartOfThisDay is idempotent, and fixes exactly the midnights. */
  lemma ThisDayIdempotent(t: Time)
    requires t.Valid()
    ensures StartOfThisDay(StartOfThisDay(t)) == StartOfThisDay(t)
    ensures StartOfThisDay(t) == t <==> t.IsMidnight()
  {
    ThisDayIs(t);
    ThisDayIs(StartOfThisDay(t));
  }

  /** Going one day forward and one back, either way round, gives midnight of t's day. */
  lemma DayRoundTrip(t: Time)
    requires t.Valid()
    ensures StartOfPrevDay(StartOfNextDay(t)) == StartOfThisDay(t)
    ensures StartOfNextDay(StartOfPrevDay(t)) == StartOfThisDay(t)
  {
    MidnightDetermined(StartOfPrevDay(StartOfNextDay(t)), StartOfThisDay(t));
    MidnightDetermined(StartOfNextDay(StartOfPrevDay(t)), StartOfThisDay(t));
  }

  /** [StartOfThisDay(t), StartOfNextDay(t)) holds exactly the times on t's calendar day. */
  lemma DayWindow(t: Time, u: Time)
    requires t.Valid() && u.Valid()
    ensures InWindow(u, StartOfThisDay(t), StartOfNextDay(t)) <==>
            u.year == t.year && u.month == t.month && u.day == t.day
    ensures InWindow(t, StartOfThisDay(t), StartOfNextDay(t))
  {
    ThisDayIs(t);
    NextDayCases(t);
  }

  // ---------------------------------------------------------------------------
  // Month helpers

  lemma ThisMonthIs(t: Time)
    requires t.Valid()
    ensures StartOfThisMonth(t) == Midnight(t.year, t.month, 1, t.loc)
  {
    MonthIndexRoundTrip(StartOfThisMonth(t).year, StartOfThisMonth(t).month);
  }

  /** StartOfNextMonth rolls December into January of the next year. */
  lemma NextMonthIs(t: Time)
    requires t.Valid()
    ensures StartOfNextMonth(t) ==
            Midnight(NextMonth(t.year, t.month).0, NextMonth(t.year, t.month).1, 1, t.loc)
  {
  }

  /** StartOfPrevMonth rolls January back to December of the previous year. */
  lemma PrevMonthIs(t: Time)
    requires t.Valid()
    ensures StartOfPrevMonth(t) ==
            Midnight(PrevMonth(t.year, t.month).0, PrevMonth(t.year, t.month).1, 1, t.loc)
  {
  }

  lemma MonthRoundTrip(t: Time)
    requires t.Valid()
    ensures StartOfPrevMonth(StartOfNextMonth(t)) == StartOfThisMonth(t)
    ensures StartOfNextMonth(StartOfPrevMonth(t)) == StartOfThisMonth(t)
  {
    ThisMonthIs(t);
    NextMonthIs(t);
    PrevMonthIs(t);
    PrevMonthIs(StartOfNextMonth(t));
    NextMonthIs(StartOfPrevMonth(t));
  }

  /** [StartOfThisMonth(t), StartOfNextMonth(t)) holds exactly the times in t's month. */
  lemma MonthWindow(t: Time, u: Time)
    requires t.Valid() && u.Valid()
    ensures InWindow(u, StartOfThisMonth(t), StartOfNextMonth(t)) <==>
            u.year == t.year && u.month == t.month
    ensures InWindow(t, StartOfThisMonth(t), StartOfNextMonth(t))
  {
    ThisMonthIs(t);
    NextMonthIs(t);
  }

  // ---------------------------------------------------------------------------
  // Year helpers

  lemma YearRoundTrip(t: Time)
    requires t.Valid()
    ensures StartOfPrevYear(StartOfNextYear(t)) == StartOfThisYear(t)
    ensures StartOfNextYear(StartOfPrevYear(t)) == StartOfThisYear(t)
  {
  }

  /** [StartOfThisYear(t), StartOfNextYear(t)) holds exactly the times in t's year. */
  lemma YearWindow(t: Time, u: Time)
    requires t.Valid() && u.Valid()
    ensures InWindow(u, StartOfThisYear(t), StartOfNextYear(t)) <==> u.year == t.year
    ensures InWindow(t, StartOfThisYear(t), StartOfNextYear(t))
  {
  }

  // ---------------------------------------------------------------------------
  // The boundary instants the DB-backed tests use, at offset +09:00

  const Kst := Location("+09:00")

  /** 2016-10-31T00:00:00 is in its own day's window; 2016-11-01T00:00:00 is not. */
  lemma DayWindowExample()
    ensures var today := Midnight(2016, 10, 31, Kst);
            InWindow(today, StartOfThisDay(today), StartOfNextDay(today)) &&
            !InWindow(Midnight(2016, 11, 1, Kst), StartOfThisDay(today), StartOfNextDay(today))
  {
    var today := Midnight(2016, 10, 31, Kst);
    DayWindow(today, today);
    DayWindow(today, Midnight(2016, 11, 1, Kst));
  }

  /** 2016-10-31T23:59:59 is in October's window; 2016-11-01T00:00:00 is not. */
  lemma MonthWindowExample()
    ensures var last := Time(2016, 10, 31, 23, 59, 59, 0, Kst);
            InWindow(last, StartOfThisMonth(last), StartOfNextMonth(last)) &&
            !InWindow(Midnight(2016, 11, 1, Kst), StartOfThisMonth(last), StartOfNextMonth(last))
  {
    var last := Time(2016, 10, 31, 23, 59, 59, 0, Kst);
    MonthWindow(last, last);
    MonthWindow(last, Midnight(2016, 11, 1, Kst));
  }

  /** 2016-12-31T23:59:59 is in 2016's window; 2017-01-01T00:00:00 is not. */
  lemma YearWindowExample()
    ensures var last := Time(2016, 12, 31, 23, 59, 59, 0, Kst);
            InWindow(last, StartOfThisYear(last), StartOfNextYear(last)) &&
            !InWindow(Midnight(2017, 1, 1, Kst), StartOfThisYear(last), StartOfNextYear(last))
  {
    var last := Time(2016, 12, 31, 23, 59, 59, 0, Kst);
    YearWindow(last, last);
    YearWindow(last, Midnight(2017, 1, 1, Kst));
  }
}
