# Scrooge calendar windows and day filter, in Dafny

Scrooge is a small personal finance tracker written in Go. It stores ledger
records (a time, an amount, a kind) and shows them by day, month or year.
This project models two pieces of its logic and proves properties about
them.

- **Calendar windows** (`utility.go`). Nine helpers give midnight at the
  start of the previous, current or next day, month or year of a time. Each
  helper is one `time.Date` call whose day or month argument may be out of
  range by one. They rely on `time.Date` to roll over month ends, year ends
  and 29 February. The model of `time.Date` is in `civil_time.dfy`:
  - A `Time` is its civil fields (year, month, day, hour, minute, second,
    nanosecond) plus an opaque `Location` tag.
  - `Date` applies Go's `norm` carries (nanoseconds into seconds, up to hours
    into days, and months into years). It then walks month by month until the
    day lies inside its month.
  - Its contract fixes the result's instant: the given day and clock offset
    from the first day of the normalised month. Go computes this same offset
    from an absolute day count. `DateUnique` proves that only one valid time
    has this instant, so the month-by-month walk and Go's arithmetic give the
    same result.
  - Times are ordered lexicographically on their civil fields.
    `InstantOrder` proves this order is the same as ordering by instant,
    which is how Go's `Before` compares, for two times in the same location.
- **Day filter** (`main.go`). `GrepRecordsByDate` scans the record slice and
  appends each record whose year, month and day equal those of the query
  date. The datatype `Records.Record` models `record` (main.go:17-21), and the
  predicate `Records.OnDay` is the match condition of main.go:78-79. The scan
  is modelled as a method with a loop (`records.dfy`). The method is
  proved equal to the specification function `RecordsOn`. Lemmas about
  `RecordsOn` give soundness, completeness with multiplicities, order
  preservation, irrelevance of the query's time of day, and agreement with a
  half-open range query over `[StartOfThisDay(date), StartOfNextDay(date))`.

The tests in `main_test.go` use the half-open windows
`[StartOfThisX(t), StartOfNextX(t))`. The example lemmas restate those tests'
boundary instants.

## Model

| member | source | states |
|---|---|---|
| CivilTime.DaysIn | utility.go:5-15 | Go's daysIn: a month has 28 to 31 days, and adding them to the days before the month gives the days before the next month (the year's length after December) |
| CivilTime.Norm | utility.go:6 | Go's carry of `lo` into `hi`: the new `lo` is in [0, base) and hi*base + lo is unchanged |
| CivilTime.NormalizeDay | utility.go:6 | the result is a valid date whose day number is `day - 1` days after the first of the given month, for any integer day (overflow and underflow across months and years) |
| CivilTime.Date | utility.go:6 | time.Date returns a valid time in the given location whose instant is the normalised month's first day plus the given day, hour, minute, second and nanosecond offsets |
| CivilTime.DateUnique | utility.go:6 | any valid time in that location with that instant equals time.Date's result, so the contract determines it |
| CivilTime.DateOfValid | utility.go:10 | fields already in range come back from time.Date unchanged |
| CivilTime.InstantOrder | utility.go:5-39 | for valid times, the lexicographic civil order is the instant order, and equal civil fields mean equal instants |
| CivilTime.DayNumberOrder | utility.go:5-15 | day numbers order valid dates as the calendar does and are injective |
| Utility.StartOfNextDay | utility.go:5-7 | the result is valid midnight in t's location on the day after t's day |
| Utility.StartOfThisDay | utility.go:9-11 | the result is valid midnight in t's location on t's day |
| Utility.StartOfPrevDay | utility.go:13-15 | the result is valid midnight in t's location on the day before t's day |
| Utility.StartOfPrevMonth | utility.go:17-19 | the result is valid midnight on day 1 of the month before t's, in t's location |
| Utility.StartOfThisMonth | utility.go:21-23 | the result is valid midnight on day 1 of t's month, in t's location |
| Utility.StartOfNextMonth | utility.go:25-27 | the result is valid midnight on day 1 of the month after t's, in t's location |
| Utility.StartOfPrevYear | utility.go:29-31 | the result is valid midnight on 1 January of year t.year-1, in t's location |
| Utility.StartOfThisYear | utility.go:33-35 | the result is valid midnight on 1 January of t's year, in t's location |
| Utility.StartOfNextYear | utility.go:37-39 | the result is valid midnight on 1 January of year t.year+1, in t's location |
| Utility.ThisDayIs | utility.go:9-11 | StartOfThisDay keeps year, month, day and location and zeroes the clock |
| Utility.NextDayCases | utility.go:5-7 | the next day is day+1 of the same month, or day 1 of the next month (January of the next year after December) when t is the month's last day |
| Utility.PrevDayCases | utility.go:13-15 | the previous day is day-1 of the same month, or the last day of the previous month (December of the previous year before January) when t is day 1 |
| Utility.NextDayAtMonthEnd | utility.go:5-7 | after a month's last day comes day 1 of the following month |
| Utility.NextDayAtYearEnd | utility.go:5-7 | after 31 December comes 1 January of year+1 |
| Utility.NextDayLeapFebruary | utility.go:5-7 | in a leap year, after 28 February comes 29 February |
| Utility.PrevDayOfFirst | utility.go:13-15 | before day 1 comes the last day of the previous month |
| Utility.PrevDayAtYearStart | utility.go:13-15 | before 1 January comes 31 December of year-1 |
| Utility.ThisDayIdempotent | utility.go:9-11 | StartOfThisDay is idempotent and leaves a time unchanged exactly when it is already midnight |
| Utility.DayRoundTrip | utility.go:5-15 | StartOfPrevDay(StartOfNextDay(t)) and StartOfNextDay(StartOfPrevDay(t)) both equal StartOfThisDay(t) |
| Utility.DayWindow | utility.go:5-11 | a valid u is in [StartOfThisDay(t), StartOfNextDay(t)) exactly when it has t's year, month and day; t itself is in the window |
| Utility.ThisMonthIs | utility.go:21-23 | StartOfThisMonth keeps year, month and location, sets day 1 and zeroes the clock |
| Utility.NextMonthIs | utility.go:25-27 | StartOfNextMonth goes to the next month, and from December to January of year+1 |
| Utility.PrevMonthIs | utility.go:17-19 | StartOfPrevMonth goes to the previous month, and from January to December of year-1 |
| Utility.MonthRoundTrip | utility.go:17-27 | StartOfPrevMonth(StartOfNextMonth(t)) and StartOfNextMonth(StartOfPrevMonth(t)) both equal StartOfThisMonth(t) |
| Utility.MonthWindow | utility.go:21-27 | a valid u is in [StartOfThisMonth(t), StartOfNextMonth(t)) exactly when it has t's year and month; t itself is in the window |
| Utility.YearRoundTrip | utility.go:29-39 | StartOfPrevYear(StartOfNextYear(t)) and StartOfNextYear(StartOfPrevYear(t)) both equal StartOfThisYear(t) |
| Utility.YearWindow | utility.go:33-39 | a valid u is in [StartOfThisYear(t), StartOfNextYear(t)) exactly when it has t's year; t itself is in the window |
| Utility.DayWindowExample | main_test.go:96-115 | 2016-10-31T00:00:00 is in its own day's window and 2016-11-01T00:00:00 is not |
| Utility.MonthWindowExample | main_test.go:117-135 | 2016-10-31T23:59:59 is in October's window and 2016-11-01T00:00:00 is not |
| Utility.YearWindowExample | main_test.go:137-156 | 2016-12-31T23:59:59 is in 2016's window and 2017-01-01T00:00:00 is not |
| Records.GrepRecordsByDate | main.go:75-85 | the loop returns exactly RecordsOn of the input, in order; the input array is only read |
| Records.KeptPositions | main.go:76-84 | the kept records sit at strictly increasing positions of the input |
| Records.RecordsOnSubsequence | main.go:76-84 | the result is a subsequence of the input, in the original order |
| Records.RecordsOnLength | main.go:76-84 | the result is no longer than the input, and an empty input gives an empty result |
| Records.RecordsOnMembers | main.go:77-81 | a record is in the result exactly when it is in the input and has date's year, month and day |
| Records.RecordsOnMultiplicity | main.go:77-81 | each matching record appears as often as in the input; a non-matching record does not appear |
| Records.RecordsOnSameDay | main.go:78-79 | two query dates with the same year, month and day give the same result |
| Records.RecordsOnStartOfDay | main.go:78-79 | querying with date or with StartOfThisDay(date) gives the same result |
| Records.RecordsOnIsDayWindow | main.go:75-85 | for valid times, the day scan equals the range query over [StartOfThisDay(date), StartOfNextDay(date)) |

## Left out

- Time zones and daylight saving: `Location` is an opaque tag. `time.Date`'s
  zone-offset lookup is not modelled, so all arithmetic is civil arithmetic
  in a fixed zone. In a zone with a DST transition at midnight, Go may return
  a time that is not midnight. The model does not capture this.
- `GrepRecordsByDate` reads Year, Month and Day of the record and of the date,
  each in its own location. A `Time` stores exactly those civil fields, so the
  filter matches main.go:78-79 across zones too; what has no model is how
  each location derives its civil fields from an absolute instant.
- Utility.DayWindow: `InWindow` compares civil fields and ignores locations, so
  this iff agrees with Go's instant comparison only when u is in t's location.
- Utility.MonthWindow: as for DayWindow, it agrees with Go's instant comparison
  only when u is in t's location.
- Utility.YearWindow: as for DayWindow, it agrees with Go's instant comparison
  only when u is in t's location.
- Records.RecordsOnIsDayWindow: `RecordsIn` is a civil range query; it agrees
  with a query on absolute instants only when every record's time is in
  date's location. Across zones a record kept by the day scan (its own day
  matches) can fall outside the instant window.
- The range of Go's `time.Time` (a 64-bit count of seconds) is not modelled.
  Years are unbounded integers, so wrap-around at extreme years is not captured.
- `time.Date` panics on a nil location, and `GrepRecordsByDate` panics on a
  nil slice pointer. Neither is modelled: the model has no nil values.
- Go returns an empty, non-nil slice for an empty input. The model returns
  the empty sequence; it does not distinguish nil from empty.
- `totalAmount` (main.go:66-73): it parses with floating point and formats
  with `fmt.Sprint`.
- `main` (main.go:23-64): file reading, JSON decoding and HTTP routing are I/O.
- db.go is not part of this model: it opens SQLite and maps tables.
- The query functions that the tests call (`recordsByDate`, `recordsByMonth`,
  `recordsByYear`, `recordsByLabelId`, `sortByKind`) are not part of this
  model. Their source is not among the files modelled. `RecordsIn` states
  the half-open range query they stand for.
- Label grouping and per-label totals do not appear in main.go or utility.go.
- models/record.go and models/label.go hold only field declarations.
  `Record` here follows main.go's `record` (time, amount, kind) and has no
  identifier.
