/** The month view of the `ReactRangeDates` component (src/index.tsx): the
    length of the displayed month and the weekday of its first day, both
    derived through `Date`, and the table of rows of seven day cells built
    from them. */
module MonthView {
  import opened JsDate

  /** A calendar month: a year and a month index (0 = January). */
  datatype YearMonth = YearMonth(year: int, month: int)

  /** The month normalisation that `Date` applies to an out-of-range month:
      the year moves by floor(month / 12) and the month is taken modulo 12. */
  function Normalize(year: int, month: int): (ym: YearMonth)
    ensures 0 <= ym.month < 12
    ensures 12 * ym.year + ym.month == 12 * year + month
  {
    YearMonth(year + month / 12, month % 12)
  }

  /** The calendar month that `new Date(year, month)` falls in. */
  function DateMonth(year: int, month: int): (ym: YearMonth)
    ensures 0 <= ym.month < 12
    ensures 12 * ym.year + ym.month == 12 * ConstructorYear(year) + month
  {
    Normalize(ConstructorYear(year), month)
  }

  /** The calendar month after ym. */
  function Following(ym: YearMonth): YearMonth
    requires 0 <= ym.month < 12
  {
    if ym.month == 11 then YearMonth(ym.year + 1, 0) else YearMonth(ym.year, ym.month + 1)
  }

  /** The calendar month before ym. */
  function Preceding(ym: YearMonth): YearMonth
    requires 0 <= ym.month < 12
  {
    if ym.month == 0 then YearMonth(ym.year - 1, 11) else YearMonth(ym.year, ym.month - 1)
  }

  /** Following and Preceding undo each other on calendar months. */
  lemma FollowingPreceding(ym: YearMonth)
    requires 0 <= ym.month < 12
    ensures 0 <= Following(ym).month < 12 && Preceding(Following(ym)) == ym
    ensures 0 <= Preceding(ym).month < 12 && Following(Preceding(ym)) == ym
  {
  }

  /** Adding one to the month argument of `Date` moves to the following
      calendar month, wrapping December to January of the next year, and
      subtracting one moves to the preceding one. */
  lemma DateMonthSteps(year: int, month: int)
    ensures DateMonth(year, month + 1) == Following(DateMonth(year, month))
    ensures DateMonth(year, month - 1) == Preceding(DateMonth(year, month))
  {
    var ym := DateMonth(year, month);
    var up, down := DateMonth(year, month + 1), DateMonth(year, month - 1);
    assert 12 * up.year + up.month == 12 * ym.year + ym.month + 1;
    assert 12 * down.year + down.month == 12 * ym.year + ym.month - 1;
  }

  /** `new Date(year, month, d)` is day d of the calendar month DateMonth(year, month). */
  lemma NewDateInMonth(year: int, month: int, d: int)
    ensures var ym := DateMonth(year, month); NewDate(year, month, d) == MakeDay(ym.year, ym.month, d)
  {
    var ym := DateMonth(year, month);
    assert ym.month / 12 == 0 && ym.month % 12 == ym.month;
  }

  /** Day 32 of a month is day 32 - L of the following month, L the month's length. */
  lemma Day32RollsOver(ym: YearMonth)
    requires 0 <= ym.month < 12
    ensures var next := Following(ym);
      MakeDay(ym.year, ym.month, 32) == MakeDay(next.year, next.month, 32 - MonthLength(ym.year, ym.month))
  {
    assert ym.month / 12 == 0 && ym.month % 12 == ym.month;
    var next := Following(ym);
    assert next.month / 12 == 0 && next.month % 12 == next.month;
    if ym.month == 11 {
      DayFromYearStep(ym.year);
    } else {
      DaysBeforeMonthStep(ym.year, ym.month);
    }
  }

  /** `new Date(year, month, 32).getDate()` is 32 minus the length of the
      calendar month DateMonth(year, month). */
  lemma Day32ReadsBack(year: int, month: int)
    ensures var ym := DateMonth(year, month);
      DateFromTime(NewDate(year, month, 32)) == 32 - MonthLength(ym.year, ym.month)
  {
    var ym := DateMonth(year, month);
    var next := Following(ym);
    var d := 32 - MonthLength(ym.year, ym.month);
    NewDateInMonth(year, month, 32);
    Day32RollsOver(ym);
    assert 1 <= d <= MonthLength(next.year, next.month);
    CalendarRoundTrip(next.year, next.month, d);
  }

  /** `daysInMonth` (src/index.tsx line 24): 32 minus the day of the month
      that day 32 of the displayed month rolls over to. It is the Gregorian
      length of the calendar month the cursor denotes. */
  function DaysInMonth(year: int, month: int): (n: int)
    ensures n == MonthLength(DateMonth(year, month).year, DateMonth(year, month).month)
    ensures 28 <= n <= 31
    ensures n == 29 <==> DateMonth(year, month).month == 1 && IsLeapYear(DateMonth(year, month).year)
    ensures n == 28 <==> DateMonth(year, month).month == 1 && !IsLeapYear(DateMonth(year, month).year)
    ensures n == 30 <==> DateMonth(year, month).month in {3, 5, 8, 10}
    ensures n == 31 <==> DateMonth(year, month).month in {0, 2, 4, 6, 7, 9, 11}
  {
    Day32ReadsBack(year, month);
    32 - DateFromTime(NewDate(year, month, 32))
  }

  /** `firstDay` (src/index.tsx line 25): the weekday (0 = Sunday) of
      `new Date(year, month)`, which is day 1 of the month. */
  function FirstDay(year: int, month: int): (w: int)
    ensures 0 <= w < 7
  {
    WeekDay(NewDate(year, month, 1))
  }

  /** The first day of the next month comes DaysInMonth days after the
      first day of this one. */
  lemma NextMonthStart(year: int, month: int)
    ensures NewDate(year, month + 1, 1) == NewDate(year, month, 1) + DaysInMonth(year, month)
  {
    var ym := DateMonth(year, month);
    var next := Following(ym);
    var len := DaysInMonth(year, month);
    DateMonthSteps(year, month);
    NewDateInMonth(year, month, 1);
    NewDateInMonth(year, month + 1, 1);
    Day32RollsOver(ym);
    MakeDayOffset(ym.year, ym.month, 32);
    MakeDayOffset(next.year, next.month, 32 - len);
  }

  /** Moving to the next month shifts the first weekday by the length of the
      current month, modulo 7. */
  lemma FirstDayShift(year: int, month: int)
    ensures FirstDay(year, month + 1) == (FirstDay(year, month) + DaysInMonth(year, month)) % 7
  {
    NextMonthStart(year, month);
    WeekDayShift(NewDate(year, month, 1), DaysInMonth(year, month));
  }

  /** Moving to the previous month shifts the first weekday back by the
      length of that previous month, modulo 7. */
  lemma FirstDayShiftBack(year: int, month: int)
    ensures (FirstDay(year, month - 1) + DaysInMonth(year, month - 1)) % 7 == FirstDay(year, month)
  {
    FirstDayShift(year, month - 1);
    assert month - 1 + 1 == month;
  }

  /** `new Date(year, month, d)`, for d within the month, reads back as day d
      of the calendar month the cursor denotes. */
  lemma NewDateReadsBack(year: int, month: int, d: int)
    requires 1 <= d <= DaysInMonth(year, month)
    ensures YearFromTime(NewDate(year, month, d)) == DateMonth(year, month).year
    ensures MonthFromTime(NewDate(year, month, d)) == DateMonth(year, month).month
    ensures DateFromTime(NewDate(year, month, d)) == d
  {
    var ym := DateMonth(year, month);
    NewDateInMonth(year, month, d);
    CalendarRoundTrip(ym.year, ym.month, d);
  }

  /** Day 0 of the count, 1 January 1970, was a Thursday. */
  lemma EpochIsThursday()
    ensures FirstDay(1970, 0) == 4
  {
    assert FirstDay(1970, 0) == WeekDay(NewDate(1970, 0, 1));
    assert WeekDay(NewDate(1970, 0, 1)) == 4;
  }

  /** 1 January 2024 was a Monday, whether named as month 0 of 2024 or as
      month 12 of 2023. */
  lemma January2024IsMonday()
    ensures FirstDay(2024, 0) == 1 && FirstDay(2023, 12) == 1
  {
    assert FirstDay(2024, 0) == WeekDay(NewDate(2024, 0, 1));
    assert NewDate(2024, 0, 1) == 19723;
    assert FirstDay(2023, 12) == WeekDay(NewDate(2023, 12, 1));
    assert NewDate(2023, 12, 1) == 19723;
  }

  /** February has 29 days in 2024 and 28 in 2023; April has 30. */
  lemma KnownMonthLengths()
    ensures DaysInMonth(2024, 1) == 29 && DaysInMonth(2023, 1) == 28 && DaysInMonth(2023, 3) == 30
  {
    assert IsLeapYear(2024) && !IsLeapYear(2023);
    assert DateMonth(2024, 1) == YearMonth(2024, 1);
    assert DateMonth(2023, 1) == YearMonth(2023, 1);
    assert DateMonth(2023, 3) == YearMonth(2023, 3);
  }

  // ---------------------------------------------------------------------
  // The grid of day cells (src/index.tsx lines 45-53)

  /** A table cell: blank padding, or the number of a day of the month. */
  datatype Cell = Blank | Day(number: int)

  /** `Math.ceil((days + first) / 7)`: the fewest rows of seven that hold
      `first` padding cells followed by `days` day cells. */
  function RowCount(days: int, first: int): (rows: int)
    ensures 7 * (rows - 1) < days + first <= 7 * rows
  {
    -((-(days + first)) / 7)
  }

  /** The number a cell shows if it is not blank: `row * 7 + col - first + 1`. */
  function CellNumber(first: int, row: int, col: int): int {
    row * 7 + col - first + 1
  }

  /** The cell at (row, col), with the test the component applies: blank
      when it is before `first` in the first row or its number passes the
      last day. It is blank exactly when its number is outside 1..days; the
      first-row test is the `< 1` half of that, since from the second row
      on every number is at least 2. */
  function CellAt(days: int, first: int, row: int, col: int): (c: Cell)
    requires 0 <= first < 7 && 0 <= row && 0 <= col < 7
    ensures c == if CellNumber(first, row, col) < 1 || CellNumber(first, row, col) > days
                 then Blank else Day(CellNumber(first, row, col))
  {
    if (row == 0 && col < first) || CellNumber(first, row, col) > days then Blank
    else Day(CellNumber(first, row, col))
  }

  /** The rows of the table body: RowCount rows of seven cells each. */
  function Grid(days: int, first: int): (g: seq<seq<Cell>>)
    requires 0 <= days && 0 <= first < 7
    ensures |g| == RowCount(days, first)
    ensures forall row | 0 <= row < |g| :: |g[row]| == 7
  {
    seq(RowCount(days, first), row requires 0 <= row =>
      seq(7, col requires 0 <= col < 7 => CellAt(days, first, row, col)))
  }

  /** The table the component renders for the cursor (year, month). */
  function MonthGrid(year: int, month: int): (g: seq<seq<Cell>>)
    ensures |g| == RowCount(DaysInMonth(year, month), FirstDay(year, month))
  {
    Grid(DaysInMonth(year, month), FirstDay(year, month))
  }

  /** The first row shows day 1 in column `first`, and the last row shows
      the last day in column (first + days - 1) mod 7. */
  lemma FirstAndLastDays(days: int, first: int)
    requires 1 <= days && 0 <= first < 7
    ensures |Grid(days, first)| >= 1
    ensures Grid(days, first)[0][first] == Day(1)
    ensures Grid(days, first)[|Grid(days, first)| - 1][(first + days - 1) % 7] == Day(days)
  {
    var g := Grid(days, first);
    var i := first + days - 1;
    assert i / 7 == |g| - 1;
    assert CellNumber(first, i / 7, i % 7) == days;
  }

  /** A row that shows at least one day. */
  predicate HasDay(row: seq<Cell>) {
    exists col | 0 <= col < |row| :: row[col].Day?
  }

  /** The grid of any month has four to six rows of seven cells, and both its
      first and its last row show at least one day. */
  lemma MonthGridShape(year: int, month: int)
    ensures 4 <= |MonthGrid(year, month)| <= 6
    ensures forall row | 0 <= row < |MonthGrid(year, month)| :: |MonthGrid(year, month)[row]| == 7
    ensures HasDay(MonthGrid(year, month)[0])
    ensures HasDay(MonthGrid(year, month)[|MonthGrid(year, month)| - 1])
  {
    var days, first := DaysInMonth(year, month), FirstDay(year, month);
    var g: seq<seq<Cell>> := MonthGrid(year, month);
    FirstAndLastDays(days, first);
    assert g[0][first].Day?;
    assert g[|g| - 1][(first + days - 1) % 7].Day?;
  }

  // ---------------------------------------------------------------------
  // Reading the grid row by row

  /** The cells of a table in row-major order. */
  function Flatten(rows: seq<seq<Cell>>): seq<Cell> {
    if rows == [] then [] else rows[0] + Flatten(rows[1..])
  }

  /** The day numbers that a sequence of cells shows, in order. */
  function DayNumbers(cells: seq<Cell>): seq<int> {
    if cells == [] then []
    else (if cells[0].Day? then [cells[0].number] else []) + DayNumbers(cells[1..])
  }

  /** In a table whose rows have seven cells, position i of the row-major
      reading is column i mod 7 of row i / 7. */
  lemma {:induction false} FlattenAt(rows: seq<seq<Cell>>)
    requires forall row | 0 <= row < |rows| :: |rows[row]| == 7
    ensures |Flatten(rows)| == 7 * |rows|
    ensures forall i | 0 <= i < 7 * |rows| :: Flatten(rows)[i] == rows[i / 7][i % 7]
  {
    if rows != [] {
      FlattenAt(rows[1..]);
      forall i | 0 <= i < 7 * |rows|
        ensures Flatten(rows)[i] == rows[i / 7][i % 7]
      {
        if i >= 7 {
          assert (i - 7) / 7 == i / 7 - 1 && (i - 7) % 7 == i % 7;
        }
      }
    }
  }

  /** Reading the day numbers distributes over concatenation. */
  lemma {:induction false} DayNumbersAppend(a: seq<Cell>, b: seq<Cell>)
    ensures DayNumbers(a + b) == DayNumbers(a) + DayNumbers(b)
  {
    if a != [] {
      assert (a + b)[0] == a[0] && (a + b)[1..] == a[1..] + b;
      DayNumbersAppend(a[1..], b);
      var head := if a[0].Day? then [a[0].number] else [];
      calc {
        DayNumbers(a + b);
        head + DayNumbers(a[1..] + b);
        head + (DayNumbers(a[1..]) + DayNumbers(b));
        (head + DayNumbers(a[1..])) + DayNumbers(b);
      }
    } else {
      assert a + b == b;
    }
  }

  /** Blank cells show no day numbers. */
  lemma {:induction false} DayNumbersBlanks(k: nat)
    ensures DayNumbers(seq(k, _ => Blank)) == []
  {
    if k > 0 {
      assert seq(k, _ => Blank)[1..] == seq(k - 1, _ => Blank);
      DayNumbersBlanks(k - 1);
    }
  }

  /** A run of n cells showing lo, lo + 1, ... shows exactly those numbers. */
  lemma {:induction false} DayNumbersRun(lo: int, n: nat)
    ensures DayNumbers(seq(n, j => Day(lo + j))) == seq(n, j => lo + j)
    decreases n
  {
    if n > 0 {
      assert seq(n, j => Day(lo + j))[1..] == seq(n - 1, j => Day(lo + 1 + j));
      DayNumbersRun(lo + 1, n - 1);
      assert seq(n, j => lo + j) == [lo] + seq(n - 1, j => lo + 1 + j);
    }
  }

  /** Read row by row, the grid is `first` blanks, then the days 1..days, then
      blanks to the end of the last row. */
  lemma GridReading(days: int, first: int)
    requires 0 <= days && 0 <= first < 7
    ensures var g := Grid(days, first);
      Flatten(g) == seq(first, _ => Blank) + seq(days, j => Day(1 + j))
                    + seq(7 * |g| - first - days, _ => Blank)
  {
    var g := Grid(days, first);
    FlattenAt(g);
    var expected := seq(first, _ => Blank) + seq(days, j => Day(1 + j))
                    + seq(7 * |g| - first - days, _ => Blank);
    assert |Flatten(g)| == |expected|;
    forall i | 0 <= i < |expected|
      ensures Flatten(g)[i] == expected[i]
    {
      assert CellNumber(first, i / 7, i % 7) == i - first + 1;
    }
  }

  /** Grid completeness: reading the non-blank cells row by row gives
      exactly 1, 2, ..., days, each day once and in increasing order. */
  lemma GridListsEveryDayOnce(days: int, first: int)
    requires 0 <= days && 0 <= first < 7
    ensures DayNumbers(Flatten(Grid(days, first))) == seq(days, j => 1 + j)
  {
    var g := Grid(days, first);
    var pre, run, post := seq(first, _ => Blank), seq(days, j => Day(1 + j)),
                          seq(7 * |g| - first - days, _ => Blank);
    GridReading(days, first);
    DayNumbersAppend(pre + run, post);
    DayNumbersAppend(pre, run);
    DayNumbersBlanks(first);
    DayNumbersBlanks(7 * |g| - first - days);
    DayNumbersRun(1, days);
  }

  /** The month view lists every day of the displayed month exactly once, in order. */
  lemma MonthGridListsEveryDay(year: int, month: int)
    ensures DayNumbers(Flatten(MonthGrid(year, month))) == seq(DaysInMonth(year, month), j => 1 + j)
  {
    GridListsEveryDayOnce(DaysInMonth(year, month), FirstDay(year, month));
  }

  /** A column 0..6 that is a row offset of a is a's residue modulo 7. */
  lemma ColumnResidue(a: int, row: int, col: int)
    requires 0 <= col < 7 && col == a - 7 * row
    ensures col == a % 7
  {
  }

  /** A day n shown at (row, col) is within 1..days and sits in column
      (first + n - 1) mod 7. */
  lemma DayColumn(days: int, first: int, row: int, col: int)
    requires 0 <= days && 0 <= first < 7
    requires 0 <= row < |Grid(days, first)| && 0 <= col < 7
    requires Grid(days, first)[row][col].Day?
    ensures var n := Grid(days, first)[row][col].number;
      1 <= n <= days && col == (first + n - 1) % 7
  {
    var n := Grid(days, first)[row][col].number;
    assert n == CellNumber(first, row, col);
    ColumnResidue(first + n - 1, row, col);
  }

  /** Day n of the month falls on weekday (firstDay + n - 1) mod 7. */
  lemma WeekDayOfDay(year: int, month: int, n: int)
    ensures WeekDay(NewDate(year, month, n)) == (FirstDay(year, month) + n - 1) % 7
  {
    var ym := DateMonth(year, month);
    NewDateInMonth(year, month, 1);
    NewDateInMonth(year, month, n);
    MakeDayOffset(ym.year, ym.month, n);
    WeekDayShift(NewDate(year, month, 1), n - 1);
  }

  /** A day shown in column col falls on weekday col: the column is
      (first + n - 1) mod 7, which is the weekday `Date` gives for day n of
      the month, and that date reads back as day n. */
  lemma ColumnIsWeekday(year: int, month: int, row: int, col: int)
    requires 0 <= row < |MonthGrid(year, month)| && 0 <= col < 7
    requires MonthGrid(year, month)[row][col].Day?
    ensures var n := MonthGrid(year, month)[row][col].number;
      && 1 <= n <= DaysInMonth(year, month)
      && col == (FirstDay(year, month) + n - 1) % 7
      && col == WeekDay(NewDate(year, month, n))
      && DateFromTime(NewDate(year, month, n)) == n
  {
    MonthGridDay(year, month, row, col);
    DayOfMonthWeekDay(year, month, MonthGrid(year, month)[row][col].number);
  }

  /** A day n shown at (row, col) of a month's table is a day of that month,
      in column (firstDay + n - 1) mod 7. */
  lemma MonthGridDay(year: int, month: int, row: int, col: int)
    requires 0 <= row < |MonthGrid(year, month)| && 0 <= col < 7
    requires MonthGrid(year, month)[row][col].Day?
    ensures var n := MonthGrid(year, month)[row][col].number;
      1 <= n <= DaysInMonth(year, month) && col == (FirstDay(year, month) + n - 1) % 7
  {
    var days, first := DaysInMonth(year, month), FirstDay(year, month);
    assert MonthGrid(year, month) == Grid(days, first);
    DayColumn(days, first, row, col);
  }

  /** Day n within the month falls on weekday (firstDay + n - 1) mod 7 and
      reads back as day n. */
  lemma DayOfMonthWeekDay(year: int, month: int, n: int)
    requires 1 <= n <= DaysInMonth(year, month)
    ensures WeekDay(NewDate(year, month, n)) == (FirstDay(year, month) + n - 1) % 7
    ensures DateFromTime(NewDate(year, month, n)) == n
  {
    WeekDayOfDay(year, month, n);
    NewDateReadsBack(year, month, n);
  }

  /** An unnormalised cursor shows the same grid as its normalised form, as
      long as the raw year and the normalised year are both in 0..99, which
      `Date` reads as 1900..1999, or both outside it. */
  lemma GridNormalisation(year: int, month: int)
    requires (0 <= year <= 99) <==> (0 <= Normalize(year, month).year <= 99)
    ensures MonthGrid(year, month) == MonthGrid(Normalize(year, month).year, Normalize(year, month).month)
  {
    var ym := Normalize(year, month);
    assert ym.month / 12 == 0 && ym.month % 12 == ym.month;
    assert DateMonth(ym.year, ym.month) == YearMonth(ConstructorYear(ym.year), ym.month);
    assert DateMonth(year, month) == DateMonth(ym.year, ym.month);
    SameMonthSameGrid(year, month, ym.year, ym.month);
  }

  /** A year 0..99 shows the grid of the same month of 1900..1999. */
  lemma GridYearQuirk(year: int, month: int)
    requires 0 <= year <= 99
    ensures MonthGrid(year, month) == MonthGrid(1900 + year, month)
  {
    SameMonthSameGrid(year, month, 1900 + year, month);
  }

  /** Two cursors that denote the same calendar month show the same grid. */
  lemma SameMonthSameGrid(y1: int, m1: int, y2: int, m2: int)
    requires DateMonth(y1, m1) == DateMonth(y2, m2)
    ensures MonthGrid(y1, m1) == MonthGrid(y2, m2)
  {
    NewDateInMonth(y1, m1, 1);
    NewDateInMonth(y2, m2, 1);
    assert DaysInMonth(y1, m1) == DaysInMonth(y2, m2);
    assert FirstDay(y1, m1) == FirstDay(y2, m2);
  }

  /** When just one of the raw and the normalised year is in 0..99, the two
      grids differ: (100, -1199) is February of year 0, a leap year, while
      (0, 1) is February 1900, a common year. */
  lemma GridNormalisationBreaks()
    ensures Normalize(100, -1199) == YearMonth(0, 1)
    ensures DaysInMonth(100, -1199) == 29 && DaysInMonth(0, 1) == 28
  {
    assert -1199 / 12 == -100 && -1199 % 12 == 1;
    assert DateMonth(100, -1199) == YearMonth(0, 1);
    assert DateMonth(0, 1) == YearMonth(1900, 1);
    assert IsLeapYear(0) && !IsLeapYear(1900);
  }

  /** Passing a year through the constructor's 0..99 rule twice changes
      nothing: `Date` shows the same month and day for either. */
  lemma ConstructorYearIdempotent(y: int, m: int, d: int)
    ensures ConstructorYear(ConstructorYear(y)) == ConstructorYear(y)
    ensures DateMonth(ConstructorYear(y), m) == DateMonth(y, m)
    ensures NewDate(ConstructorYear(y), m, d) == NewDate(y, m, d)
  {
  }
}
