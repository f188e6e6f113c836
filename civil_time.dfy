/**
 * The part of Go's `time` package that the calendar helpers rely on: a
 * `time.Time` seen through its civil fields (Year, Month, Day, Hour, Minute,
 * Second, Nanosecond, Location) and `time.Date`, which accepts out-of-range
 * fields and normalises them into a proleptic-Gregorian date and time.
 *
 * Zones are not modelled: the location is an opaque tag that is copied
 * through, and all arithmetic is civil arithmetic in that one zone.
 */
module CivilTime {

  /** Go's *time.Location, reduced to a name that is carried unchanged. */
  datatype Location = Location(name: string)

  /** A time.Time as its civil fields read it back in its own location. */
  datatype Time = Time(year: int, month: int, day: int,
                       hour: int, minute: int, second: int, nsec: int,
                       loc: Location)
  {
    /** Every time.Time value satisfies this: its fields are in range. */
    predicate Valid() {
      ValidDate(year, month, day) &&
      0 <= hour < 24 && 0 <= minute < 60 && 0 <= second < 60 &&
      0 <= nsec < NanosPerSecond
    }

    /** Hour, minute, second and nanosecond are all zero. */
    predicate IsMidnight() {
      hour == 0 && minute == 0 && second == 0 && nsec == 0
    }
  }

  const NanosPerSecond: int := 1_000_000_000

  /** Cumulative day counts before each month of a common year (Go's daysBefore). */
  const DaysBefore: seq<int> := [0, 31, 59, 90, 120, 151, 181, 212, 243, 273, 304, 334, 365]

  predicate IsLeap(year: int) {
    year % 4 == 0 && (year % 100 != 0 || year % 400 == 0)
  }

  /** Days in the year before the first day of `month`; month 13 gives the year's length. */
  function DaysBeforeMonth(year: int, month: int): int
    requires 1 <= month <= 13
  {
    DaysBefore[month - 1] + (if IsLeap(year) && month > 2 then 1 else 0)
  }

  /** The length of a month, as Go's daysIn computes it. */
  function DaysIn(year: int, month: int): (n: int)
    requires 1 <= month <= 12
    ensures 28 <= n <= 31
    ensures DaysBeforeMonth(year, month) + n == DaysBeforeMonth(year, month + 1)
  {
    if month == 2 && IsLeap(year) then 29 else DaysBefore[month] - DaysBefore[month - 1]
  }

  predicate ValidDate(year: int, month: int, day: int) {
    1 <= month <= 12 && 1 <= day <= DaysIn(year, month)
  }

  /** Days from 0001-01-01 to January 1st of `year` (negative before year 1). */
  function DaysBeforeYear(year: int): int {
    365 * (year - 1) + (year - 1) / 4 - (year - 1) / 100 + (year - 1) / 400
  }

  /** The absolute day number of a civil date, 0001-01-01 being day 0. */
  function DayNumber(year: int, month: int, day: int): int
    requires 1 <= month <= 12
  {
    DaysBeforeYear(year) + DaysBeforeMonth(year, month) + day - 1
  }

  /** Months counted from January of year 0: the month that `time.Date` normalises to. */
  function MonthIndex(year: int, month: int): int {
    year * 12 + month - 1
  }

  /** The day number of the first day of the month with index `idx`. */
  function MonthStart(idx: int): int {
    DayNumber(idx / 12, idx % 12 + 1, 1)
  }

  /** Nanoseconds from the start of day 0 to the given day and time of day. */
  function Nanos(days: int, hour: int, minute: int, second: int, nsec: int): int {
    (((days * 24 + hour) * 60 + minute) * 60 + second) * NanosPerSecond + nsec
  }

  /** The instant a valid time denotes, in nanoseconds on its zone's civil clock. */
  function Instant(t: Time): int
    requires t.Valid()
  {
    Nanos(DayNumber(t.year, t.month, t.day), t.hour, t.minute, t.second, t.nsec)
  }

  /** The day number of a valid time's calendar day. */
  function DayOf(t: Time): int
    requires t.Valid()
  {
    DayNumber(t.year, t.month, t.day)
  }

  /** Lexicographic order on the civil fields; the location plays no part. */
  predicate Before(a: Time, b: Time) {
    a.year < b.year || (a.year == b.year &&
    (a.month < b.month || (a.month == b.month &&
    (a.day < b.day || (a.day == b.day &&
    (a.hour < b.hour || (a.hour == b.hour &&
    (a.minute < b.minute || (a.minute == b.minute &&
    (a.second < b.second || (a.second == b.second &&
    a.nsec < b.nsec)))))))))))
  }

  predicate AtOrBefore(a: Time, b: Time) {
    !Before(b, a)
  }

  /** Same civil fields, whatever the locations. */
  predicate SameCivil(a: Time, b: Time) {
    a.year == b.year && a.month == b.month && a.day == b.day &&
    a.hour == b.hour && a.minute == b.minute && a.second == b.second && a.nsec == b.nsec
  }

  /**
   * Go's norm: moves whole multiples of `base` from `lo` into `hi` so that
   * `lo` ends in [0, base), keeping hi * base + lo unchanged.
   */
  function Norm(hi: int, lo: int, base: int): (r: (int, int))
    requires base > 0
    ensures 0 <= r.1 < base
    ensures r.0 * base + r.1 == hi * base + lo
  {
    var (hi1, lo1) :=
      if lo < 0 then
        var n := (-lo - 1) / base + 1;
        assert n * base > -lo - 1 by { DivBound(-lo - 1, base); }
        (hi - n, lo + n * base)
      else (hi, lo);
    if lo1 >= base then
      var n := lo1 / base;
      assert lo1 - n * base == lo1 % base;
      (hi1 + n, lo1 - n * base)
    else (hi1, lo1)
  }

  lemma DivBound(x: int, base: int)
    requires x >= 0 && base > 0
    ensures (x / base + 1) * base > x
  {
    assert x == (x / base) * base + x % base;
  }

  function NextMonth(year: int, month: int): (int, int) {
    if month == 12 then (year + 1, 1) else (year, month + 1)
  }

  function PrevMonth(year: int, month: int): (int, int) {
    if month == 1 then (year - 1, 12) else (year, month - 1)
  }

  /** January 1st of the next year follows December 31st. */
  lemma YearStep(year: int)
    ensures DaysBeforeYear(year + 1) == DaysBeforeYear(year) + DaysBeforeMonth(year, 13)
  {
    var x := year - 1;
    assert year / 4 == x / 4 + (if year % 4 == 0 then 1 else 0);
    assert year / 100 == x / 100 + (if year % 100 == 0 then 1 else 0);
    assert year / 400 == x / 400 + (if year % 400 == 0 then 1 else 0);
    assert year % 400 == 0 ==> year % 100 == 0 && year % 4 == 0;
    assert year % 100 == 0 ==> year % 4 == 0;
  }

  /** The first day of the following month comes DaysIn days after the first of this one. */
  lemma MonthStep(year: int, month: int)
    requires 1 <= month <= 12
    ensures var (ny, nm) := NextMonth(year, month);
            DayNumber(ny, nm, 1) == DayNumber(year, month, 1) + DaysIn(year, month)
  {
    if month == 12 { YearStep(year); }
  }

  /** A month index and the (year, month) it names agree. */
  lemma MonthIndexRoundTrip(year: int, month: int)
    requires 1 <= month <= 12
    ensures MonthIndex(year, month) / 12 == year
    ensures MonthIndex(year, month) % 12 + 1 == month
    ensures MonthStart(MonthIndex(year, month)) == DayNumber(year, month, 1)
  {
  }

  /**
   * Walks month by month until `day` lies inside the month, keeping the day
   * number: the result is the valid date `day - 1` days after the first of
   * (year, month).
   */
  function NormalizeDay(year: int, month: int, day: int): (r: (int, int, int))
    requires 1 <= month <= 12
    ensures ValidDate(r.0, r.1, r.2)
    ensures DayNumber(r.0, r.1, r.2) == DayNumber(year, month, 1) + day - 1
    decreases if day < 1 then 1 else 0, if day < 1 then -day else day
  {
    if day < 1 then
      var (py, pm) := PrevMonth(year, month);
      MonthStep(py, pm);
      NormalizeDay(py, pm, day + DaysIn(py, pm))
    else if day > DaysIn(year, month) then
      var (ny, nm) := NextMonth(year, month);
      MonthStep(year, month);
      NormalizeDay(ny, nm, day - DaysIn(year, month))
    else
      (year, month, day)
  }

  /**
   * time.Date(year, month, day, hour, min, sec, nsec, loc): the valid time
   * whose instant is the given fields' offset from the first day of the
   * normalised month.
   */
  function Date(year: int, month: int, day: int, hour: int, minute: int, second: int,
                nsec: int, loc: Location): (t: Time)
    ensures t.Valid() && t.loc == loc
    ensures Instant(t) == Nanos(MonthStart(MonthIndex(year, month)) + day - 1,
                                hour, minute, second, nsec)
  {
    var (y1, m0) := Norm(year, month - 1, 12);
    var (s1, ns1) := Norm(second, nsec, NanosPerSecond);
    var (mi1, s2) := Norm(minute, s1, 60);
    var (h1, mi2) := Norm(hour, mi1, 60);
    var (d1, h2) := Norm(day, h1, 24);
    var (y, m, d) := NormalizeDay(y1, m0 + 1, d1);
    MonthIndexRoundTrip(y1, m0 + 1);
    Time(y, m, d, h2, mi2, s2, ns1, loc)
  }

  /** January 1st of `year` starts it, and its day numbers stay below the next year's. */
  lemma DayNumberInYear(year: int, month: int, day: int)
    requires ValidDate(year, month, day)
    ensures DaysBeforeYear(year) <= DayNumber(year, month, day) < DaysBeforeYear(year + 1)
  {
    YearStep(year);
    assert DaysBeforeMonth(year, month) + DaysIn(year, month) <= DaysBeforeMonth(year, 13);
  }

  lemma {:induction false} DaysBeforeYearMonotone(a: int, b: int)
    requires a < b
    ensures DaysBeforeYear(a + 1) <= DaysBeforeYear(b)
    decreases b - a
  {
    if a + 1 < b {
      DaysBeforeYearMonotone(a + 1, b);
      YearStep(a + 1);
    }
  }

  predicate DateBefore(y1: int, m1: int, d1: int, y2: int, m2: int, d2: int) {
    y1 < y2 || (y1 == y2 && (m1 < m2 || (m1 == m2 && d1 < d2)))
  }

  /** Day numbers order valid dates exactly as the calendar does. */
  lemma DayNumberOrder(y1: int, m1: int, d1: int, y2: int, m2: int, d2: int)
    requires ValidDate(y1, m1, d1) && ValidDate(y2, m2, d2)
    ensures DateBefore(y1, m1, d1, y2, m2, d2) <==> DayNumber(y1, m1, d1) < DayNumber(y2, m2, d2)
    ensures (y1, m1, d1) == (y2, m2, d2) <==> DayNumber(y1, m1, d1) == DayNumber(y2, m2, d2)
  {
    if DateBefore(y1, m1, d1, y2, m2, d2) {
      DayNumberLess(y1, m1, d1, y2, m2, d2);
    } else if DateBefore(y2, m2, d2, y1, m1, d1) {
      DayNumberLess(y2, m2, d2, y1, m1, d1);
    }
  }

  lemma DayNumberLess(y1: int, m1: int, d1: int, y2: int, m2: int, d2: int)
    requires ValidDate(y1, m1, d1) && ValidDate(y2, m2, d2)
    requires DateBefore(y1, m1, d1, y2, m2, d2)
    ensures DayNumber(y1, m1, d1) < DayNumber(y2, m2, d2)
  {
    if y1 < y2 {
      DayNumberInYear(y1, m1, d1);
      DayNumberInYear(y2, m2, d2);
      DaysBeforeYearMonotone(y1, y2);
    } else if m1 < m2 {
      assert DaysBeforeMonth(y1, m1) + d1 <= DaysBeforeMonth(y1, m1 + 1);
      assert DaysBeforeMonth(y1, m1 + 1) <= DaysBeforeMonth(y1, m2);
    }
  }

  /** Instants order valid times exactly as the lexicographic civil order does. */
  lemma InstantOrder(a: Time, b: Time)
    requires a.Valid() && b.Valid()
    ensures Before(a, b) <==> Instant(a) < Instant(b)
    ensures SameCivil(a, b) <==> Instant(a) == Instant(b)
  {
    DayNumberOrder(a.year, a.month, a.day, b.year, b.month, b.day);
    NanosOrder(DayNumber(a.year, a.month, a.day), a.hour, a.minute, a.second, a.nsec,
               DayNumber(b.year, b.month, b.day), b.hour, b.minute, b.second, b.nsec);
  }

  predicate ClockValid(hour: int, minute: int, second: int, nsec: int) {
    0 <= hour < 24 && 0 <= minute < 60 && 0 <= second < 60 && 0 <= nsec < NanosPerSecond
  }

  /** With in-range clock fields, Nanos is lexicographically monotone and injective. */
  lemma NanosOrder(d1: int, h1: int, mi1: int, s1: int, ns1: int,
                   d2: int, h2: int, mi2: int, s2: int, ns2: int)
    requires ClockValid(h1, mi1, s1, ns1) && ClockValid(h2, mi2, s2, ns2)
    ensures Nanos(d1, h1, mi1, s1, ns1) < Nanos(d2, h2, mi2, s2, ns2) <==>
            (d1 < d2 || (d1 == d2 && (h1 < h2 || (h1 == h2 &&
            (mi1 < mi2 || (mi1 == mi2 && (s1 < s2 || (s1 == s2 && ns1 < ns2))))))))
    ensures Nanos(d1, h1, mi1, s1, ns1) == Nanos(d2, h2, mi2, s2, ns2) <==>
            (d1, h1, mi1, s1, ns1) == (d2, h2, mi2, s2, ns2)
  {
  }

  /** A valid time is determined, up to its location, by its instant. */
  lemma InstantInjective(a: Time, b: Time)
    requires a.Valid() && b.Valid()
    requires Instant(a) == Instant(b) && a.loc == b.loc
    ensures a == b
  {
    InstantOrder(a, b);
  }

  /** time.Date has exactly one possible result: what its contract states pins it down. */
  lemma DateUnique(year: int, month: int, day: int, hour: int, minute: int, second: int,
                   nsec: int, loc: Location, t: Time)
    requires t.Valid() && t.loc == loc
    requires Instant(t) == Nanos(MonthStart(MonthIndex(year, month)) + day - 1,
                                 hour, minute, second, nsec)
    ensures t == Date(year, month, day, hour, minute, second, nsec, loc)
  {
    InstantInjective(t, Date(year, month, day, hour, minute, second, nsec, loc));
  }

  /** Fields already in range come back from time.Date unchanged. */
  lemma DateOfValid(t: Time)
    requires t.Valid()
    ensures Date(t.year, t.month, t.day, t.hour, t.minute, t.second, t.nsec, t.loc) == t
  {
    MonthIndexRoundTrip(t.year, t.month);
    DateUnique(t.year, t.month, t.day, t.hour, t.minute, t.second, t.nsec, t.loc, t);
  }

  /** A valid time whose instant is midnight of day `days` is that midnight. */
  lemma MidnightAt(t: Time, days: int)
    requires t.Valid()
    requires Instant(t) == Nanos(days, 0, 0, 0, 0)
    ensures t.IsMidnight() && DayOf(t) == days
  {
    NanosOrder(DayOf(t), t.hour, t.minute, t.second, t.nsec, days, 0, 0, 0, 0);
  }

  /** Two valid midnights in the same location on the same day are equal. */
  lemma MidnightDetermined(a: Time, b: Time)
    requires a.Valid() && b.Valid() && a.IsMidnight() && b.IsMidnight()
    requires a.loc == b.loc && DayOf(a) == DayOf(b)
    ensures a == b
  {
    DayNumberOrder(a.year, a.month, a.day, b.year, b.month, b.day);
  }

  /** A valid time on the first day of month `idx` has day 1 and that month index. */
  lemma MonthStartAt(t: Time, idx: int)
    requires t.Valid() && DayOf(t) == MonthStart(idx)
    ensures t.day == 1 && MonthIndex(t.year, t.month) == idx
  {
    DayNumberOrder(t.year, t.month, t.day, idx / 12, idx % 12 + 1, 1);
  }
}
