# ReactRangeDates month view, in Dafny

`ReactRangeDates` (src/index.tsx) is a React component that shows one month
as a table. It holds a `year` and a `month` in component state. It derives
the number of days in that month and the weekday of its first day from
JavaScript's `Date`. It then renders `ceil((daysInMonth + firstDay) / 7)` rows
of seven cells. Two buttons move the month back or forward by one.

The model has three modules:

- `JsDate` (js_date.dfy) covers the part of the `Date` object the component
  relies on, at day granularity, following section 21.4.1 of ECMA-262. It has
  `DayFromYear`, `MakeDay` (a month outside 0..11 moves the year by
  floor(month / 12), and day overflow runs into later months), `YearFromTime`,
  `MonthFromTime`, `DateFromTime`, `WeekDay`, and the constructor's reading of
  years 0..99 as 1900..1999. The calendar is the proleptic Gregorian one. It
  is proved that reading a date back from its day number gives the same date,
  and the other way round.
- `MonthView` (month_view.dfy) holds `daysInMonth` and `firstDay`, written as
  the source computes them. `daysInMonth` is `32 - new Date(year, month,
  32).getDate()`. It also holds the cell table and the lemmas about them.
- `ReactRangeDates` (cursor.dfy) holds the `year`/`month` state as a class
  with `Prev` and `Next`, and the header line.

Navigation is often described as wrapping: "next" from December gives
month 0 of the following year. The code does not do that. It only does
`month + 1` and never calls `setYear`. The month is resolved into a real
calendar month only when `Date` reads it. The model follows the code:
`Cursor.Next` adds one to `month`. `DateMonthSteps` then proves that the
*displayed* calendar month still wraps from December to January of the next
year. The header line, however, does not follow (see Findings).

## Model

| member | source | states |
|---|---|---|
| `JsDate.DayFromYearEpoch` | src/index.tsx:24-25 | `DayFromYear` puts 1 January 1970 at day 0, with the common years 1969 and 1971 365 days either side |
| `JsDate.DayFromYearStep` | src/index.tsx:24-25 | Two consecutive years start exactly one year length apart: 366 days for a Gregorian leap year, 365 otherwise |
| `JsDate.DayFromYearMonotone` | src/index.tsx:24-25 | The first day of each year is at least 365 days after that of the year before, so the year count is strictly increasing |
| `JsDate.YearSearch` | src/index.tsx:24 | Walking from any start year ends at the year whose span holds the given day |
| `JsDate.YearFromTime` | src/index.tsx:24 | The year of a day number is the one whose first day is at or before it and whose successor's first day is after it |
| `JsDate.YearFromTimeUnique` | src/index.tsx:24 | Only one year holds a given day |
| `JsDate.DayWithinYear` | src/index.tsx:24 | A day's offset in its year is at least 0 and less than the year's length |
| `JsDate.MonthSearch` | src/index.tsx:24 | The month search returns the month whose threshold interval holds the day of the year |
| `JsDate.MonthFromTime` | src/index.tsx:24 | The month of a day number is in 0..11, and the day of the year lies within that month's thresholds |
| `JsDate.DateFromTime` | src/index.tsx:24 | `getDate()` is between 1 and the length of the day's own month |
| `JsDate.WeekDay` | src/index.tsx:25 | `getDay()` is in 0..6 and differs from the day number by 3 modulo 7, so day 0 (1 January 1970) is a Thursday |
| `JsDate.ConstructorYear` | src/index.tsx:24-25 | The year the `Date` constructor uses is never in 0..99, and a year outside 0..99 passes through unchanged |
| `JsDate.CalendarRoundTrip` | src/index.tsx:24 | For a valid date, reading the year, month and day back from its day number gives that same date |
| `JsDate.TimeRoundTrip` | src/index.tsx:24 | Every day number equals `MakeDay` of the year, month and day read back from it |
| `JsDate.WeekDayShift` | src/index.tsx:25 | Moving k days on moves the weekday by k modulo 7 |
| `JsDate.MakeDayOffset` | src/index.tsx:24 | In `MakeDay`, day d of a month is d - 1 days after day 1 |
| `JsDate.MakeDayNormalises` | src/index.tsx:24-25 | `MakeDay` of an out-of-range month equals `MakeDay` of year + floor(month / 12) and month mod 12, for every day |
| `MonthView.Normalize` | src/index.tsx:24-25 | The explicit form of the month normalisation: the month ends up in 0..11 and the total `12 * year + month` is unchanged |
| `MonthView.DateMonth` | src/index.tsx:24-25 | The calendar month of `new Date(year, month)` has a month in 0..11 and the same month total as (constructor year, month) |
| `MonthView.FollowingPreceding` | src/index.tsx:30-31 | Going one calendar month forward and one back, in either order, returns to the same month |
| `MonthView.DateMonthSteps` | src/index.tsx:30-31 | Month argument + 1 is the following calendar month (December goes to January of the next year); - 1 is the preceding one |
| `MonthView.NewDateInMonth` | src/index.tsx:24-25 | `new Date(year, month, d)` is day d of the normalised calendar month |
| `MonthView.Day32RollsOver` | src/index.tsx:24 | Day 32 of a month is day 32 - L of the following month, where L is the month's length |
| `MonthView.Day32ReadsBack` | src/index.tsx:24 | `new Date(year, month, 32).getDate()` is 32 minus the length of the displayed month |
| `MonthView.DaysInMonth` | src/index.tsx:24 | `32 - new Date(year, month, 32).getDate()` is the Gregorian length of the displayed month, always 28..31: 29 exactly for February of a leap year, 28 for other Februaries, 30 for April, June, September and November, 31 otherwise |
| `MonthView.FirstDay` | src/index.tsx:25 | `new Date(year, month).getDay()` is in 0..6 |
| `MonthView.FirstDayShift` | src/index.tsx:25 | The first weekday of the next month is this month's first weekday plus its length, modulo 7 |
| `MonthView.NextMonthStart` | src/index.tsx:25 | The 1st of the next month is `daysInMonth` days after the 1st of this one |
| `MonthView.FirstDayShiftBack` | src/index.tsx:25 | The previous month's first weekday plus its length is this month's first weekday, modulo 7 |
| `MonthView.NewDateReadsBack` | src/index.tsx:24-25 | For d within the month, `new Date(year, month, d)` reads back as year, month and day d of the displayed calendar month |
| `MonthView.EpochIsThursday` | src/index.tsx:25 | 1 January 1970 is weekday 4 (Thursday) |
| `MonthView.January2024IsMonday` | src/index.tsx:25 | 1 January 2024 is weekday 1 (Monday), whether named as (2024, 0) or as (2023, 12) |
| `MonthView.KnownMonthLengths` | src/index.tsx:24 | February 2024 has 29 days, February 2023 has 28, April 2023 has 30 |
| `MonthView.RowCount` | src/index.tsx:45 | `Math.ceil((days + first) / 7)` is the fewest rows of seven that hold `first + days` cells |
| `MonthView.CellAt` | src/index.tsx:50-53 | With the source's test (first row before `first`, or number > days), a cell is blank exactly when `row*7 + col - first + 1` is < 1 or > days, and otherwise shows that number |
| `MonthView.Grid` | src/index.tsx:45-48 | The table has `RowCount` rows of seven cells |
| `MonthView.MonthGrid` | src/index.tsx:24-53 | The month's table has `ceil((daysInMonth + firstDay) / 7)` rows |
| `MonthView.FirstAndLastDays` | src/index.tsx:45-53 | Day 1 sits in the first row at column `first`; the last day sits in the last row at column `(first + days - 1) mod 7` |
| `MonthView.MonthGridShape` | src/index.tsx:45-53 | Every month's table has 4 to 6 rows of 7 cells, and its first and last rows each show at least one day |
| `MonthView.FlattenAt` | src/index.tsx:45-53 | Reading a 7-wide table row by row puts column i mod 7 of row i / 7 at position i |
| `MonthView.GridReading` | src/index.tsx:45-53 | Read row by row, the table is `first` blanks, then days 1..days, then blanks to the end of the last row |
| `MonthView.GridListsEveryDayOnce` | src/index.tsx:45-53 | The non-blank cells in row-major order are exactly 1, 2, ..., days |
| `MonthView.MonthGridListsEveryDay` | src/index.tsx:24-53 | The month view lists every day of the displayed month once, in increasing order |
| `MonthView.DayColumn` | src/index.tsx:48-53 | A day n shown at (row, col) is in 1..days and sits in column (first + n - 1) mod 7 |
| `MonthView.WeekDayOfDay` | src/index.tsx:25 | Day n of the month falls on weekday (firstDay + n - 1) mod 7 |
| `MonthView.MonthGridDay` | src/index.tsx:45-53 | A day n shown in a month's table is in 1..daysInMonth, and its column is (firstDay + n - 1) mod 7 |
| `MonthView.DayOfMonthWeekDay` | src/index.tsx:24-25 | Day n of the month, for n in 1..daysInMonth, falls on weekday (firstDay + n - 1) mod 7 and reads back as day n |
| `MonthView.ColumnIsWeekday` | src/index.tsx:25-53 | A day n in column col has col = (firstDay + n - 1) mod 7. This is the `getDay()` of `new Date(year, month, n)`, and that date reads back as day n |
| `MonthView.GridNormalisation` | src/index.tsx:24-25 | The table for an unnormalised cursor (year, month) equals the one for (year + floor(month/12), month mod 12), whenever both years or neither are in 0..99 |
| `MonthView.GridNormalisationBreaks` | src/index.tsx:24 | When only one of the two years is in 0..99 the tables can differ: (100, -1199) normalises to (0, 1) but has 29 days, while (0, 1) has 28 |
| `MonthView.GridYearQuirk` | src/index.tsx:24-25 | The table for a year 0..99 equals the one for the same month of 1900..1999 |
| `MonthView.SameMonthSameGrid` | src/index.tsx:24-53 | Two cursors that denote the same calendar month render the same table |
| `MonthView.ConstructorYearIdempotent` | src/index.tsx:24-25 | Applying the 0..99 rule to a year that has already been through it changes nothing, so `new Date` gives the same calendar month and the same day either way |
| `ReactRangeDates.HeaderAsWritten` | src/index.tsx:29 | The header shows a month name only for a raw month in 0..11, and always the raw year |
| `ReactRangeDates.HeaderLosesMonth` | src/index.tsx:29-31 | At month 12 the table shows January of the next year, but the header shows no month name and the old year |
| `ReactRangeDates.HeaderAsWrittenExact` | src/index.tsx:29 | For a year outside 0..99, the header as written equals the corrected one if and only if the raw month is in 0..11 |
| `ReactRangeDates.HeaderShown` | src/index.tsx:29 | The corrected header always names a month 0..11, and its (year, month) is the calendar month the table shows |
| `ReactRangeDates.HeaderShownAgrees` | src/index.tsx:21-29 | For an in-range starting state the corrected header matches the one as written |
| `ReactRangeDates.Cursor.constructor` | src/index.tsx:19-22 | The initial state is today's full year and month, given as parameters |
| `ReactRangeDates.Cursor.Shown` | src/index.tsx:24-25 | The displayed calendar month has a month in 0..11 |
| `ReactRangeDates.Cursor.Title` | src/index.tsx:29 | The corrected header names the displayed month and year |
| `ReactRangeDates.Cursor.Table` | src/index.tsx:45-53 | The rendered table has 4 to 6 rows |
| `ReactRangeDates.Cursor.Prev` | src/index.tsx:30 | `month` drops by one and `year` is untouched. The displayed month becomes the preceding calendar month, and the new first weekday plus the new month's length is the old first weekday, modulo 7 |
| `ReactRangeDates.Cursor.Next` | src/index.tsx:31 | `month` grows by one and `year` is untouched. The displayed month becomes the following calendar month, and the first weekday moves on by the old month's length, modulo 7 |
| `ReactRangeDates.NextThenPrev` | src/index.tsx:30-31 | `>` followed by `<` restores year and month exactly |
| `ReactRangeDates.PrevThenNext` | src/index.tsx:30-31 | `<` followed by `>` restores year and month exactly |

## Left out

- Range selection (the two-click start/end state machine), hover preview, in-range and boundary classification, the "dates selected" callback, the month/year/custom-range panels and the year-window policy. None of these exist in src/index.tsx. src/stories/Calendar.stories.tsx imports a `./Calendar` module, and that module is not part of this model.
- Rendering: the JSX table markup, the weekday header letters (src/index.tsx:35-41) and the month name strings (src/index.tsx:3-16). The header appears only as the month index it looks up.
- The clock read `new Date()` for today (src/index.tsx:19). The cursor's constructor takes the initial year and month as parameters.
- Time values in milliseconds and the local time-zone offset. The component builds local midnights and reads them back with local getters, so the model works in whole local days.
- The time-value range limit of `Date`: 8.64e15 ms, which is 100,000,000 days, or about 273,790 years either side of 1970. The years it allows run from -271,821 to 275,760. Beyond it, `getDate()` is NaN and `new Array(NaN)` throws. The model's years are unbounded.
- React's scheduling of state updates. `setMonth(val => val ± 1)` is modelled as an immediate field update.
- `MonthView.GridNormalisation` requires the raw year and the normalised year to be both in 0..99 or both outside it. `Date` reads a year 0..99 as 1900..1999, so when exactly one of them is in that range the equality can fail. `MonthView.GridNormalisationBreaks` gives such a case, and `MonthView.GridYearQuirk` states what a year 0..99 shows.

## Findings

| source | as written | input that shows it | evidently intended | confidence | as-written member | corrected member |
|---|---|---|---|---|---|---|
| src/index.tsx:29-31 | The header prints `months[month]` and `year` from the raw state. `>` and `<` change only `month`, with no wrap-around | Start in December of year Y (month 11) and press `>`. The table shows January of Y + 1, but the header reads ` - Y`: `months[12]` is `undefined`, which React renders as nothing | The header names the calendar month the table shows: January, Y + 1 | high (not executed) | `ReactRangeDates.HeaderAsWritten`, `ReactRangeDates.HeaderLosesMonth`, `ReactRangeDates.HeaderAsWrittenExact` | `ReactRangeDates.HeaderShown`, `ReactRangeDates.Cursor.Title` |
