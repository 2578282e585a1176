/** The display state of the `ReactRangeDates` component (src/index.tsx):
    the `year` and `month` it holds with `useState`, and the two buttons
    that step the month. */
module ReactRangeDates {
  import opened JsDate
  import opened MonthView

  datatype Option<T> = None | Some(value: T)

  /** What the header line shows: the index into the twelve month names
      (None when the lookup is `undefined`) and the year. */
  datatype Header = Header(monthName: Option<int>, year: int)

  /** The header as written (src/index.tsx line 29): `months[month]` with the
      raw month, so no name for a month outside 0..11, and the raw year. */
  function HeaderAsWritten(year: int, month: int): (h: Header)
    ensures h.monthName.Some? <==> 0 <= month < 12
    ensures h.monthName.Some? ==> h.monthName.value == month
    ensures h.year == year
  {
    Header(if 0 <= month < 12 then Some(month) else None, year)
  }

  /** After `>` in December the grid shows January of the next year, but the
      header as written shows no month name and the old year. */
  lemma HeaderLosesMonth(year: int)
    requires !(0 <= year <= 99)
    ensures DateMonth(year, 12) == YearMonth(year + 1, 0)
    ensures HeaderAsWritten(year, 12) == Header(None, year)
  {
  }

  /** The header for the calendar month the grid shows: the normalised
      month's name and the normalised year. */
  function HeaderShown(year: int, month: int): (h: Header)
    ensures h.monthName.Some? && 0 <= h.monthName.value < 12
    ensures YearMonth(h.year, h.monthName.value) == DateMonth(year, month)
  {
    var ym := DateMonth(year, month);
    Header(Some(ym.month), ym.year)
  }

  /** Where the raw month is in range (as in the initial state, for a year
      outside 0..99), the corrected header shows what the written one does. */
  lemma HeaderShownAgrees(year: int, month: int)
    requires 0 <= month < 12 && !(0 <= year <= 99)
    ensures HeaderShown(year, month) == HeaderAsWritten(year, month)
  {
    assert DateMonth(year, month) == YearMonth(year, month);
  }

  /** For a year outside 0..99, the header as written is the corrected one
      exactly when the raw month is in 0..11. */
  lemma HeaderAsWrittenExact(year: int, month: int)
    requires !(0 <= year <= 99)
    ensures HeaderAsWritten(year, month) == HeaderShown(year, month) <==> 0 <= month < 12
  {
    if 0 <= month < 12 {
      HeaderShownAgrees(year, month);
    }
  }

  /** The cursor behind the month view. The buttons change only `month`, by
      one, with no wrap-around; `year` keeps its initial value, since nothing
      calls `setYear`. An out-of-range month is resolved only when `Date`
      reads it. */
  class Cursor {
    var year: int
    var month: int

    /** The initial state, taken from "today" (its full year and month). */
    constructor (todayYear: int, todayMonth: int)
      ensures year == todayYear && month == todayMonth
    {
      year := todayYear;
      month := todayMonth;
    }

    /** The calendar month the component displays for this state. */
    function Shown(): (ym: YearMonth)
      reads this
      ensures 0 <= ym.month < 12
    {
      DateMonth(year, month)
    }

    /** The header line for this state, naming the month the table shows. */
    function Title(): (h: Header)
      reads this
      ensures h.monthName == Some(Shown().month) && h.year == Shown().year
    {
      HeaderShown(year, month)
    }

    /** The table of day cells rendered for this state. */
    function Table(): (g: seq<seq<Cell>>)
      reads this
      ensures 4 <= |g| <= 6
    {
      MonthGridShape(year, month);
      MonthGrid(year, month)
    }

    /** The `<` button: `setMonth(val => val - 1)`. The displayed month
        becomes the preceding calendar month (December of the year before
        when it was January), and the first weekday moves back by that
        month's length. */
    method Prev()
      modifies this
      ensures year == old(year) && month == old(month) - 1
      ensures Shown() == Preceding(old(Shown()))
      ensures (FirstDay(year, month) + DaysInMonth(year, month)) % 7 == old(FirstDay(year, month))
    {
      var y, m := year, month;
      DateMonthSteps(y, m);
      FirstDayShiftBack(y, m);
      month := m - 1;
    }

    /** The `>` button: `setMonth(val => val + 1)`. The displayed month
        becomes the following calendar month (January of the next year when
        it was December), and the first weekday moves on by the length of the
        month left behind. */
    method Next()
      modifies this
      ensures year == old(year) && month == old(month) + 1
      ensures Shown() == Following(old(Shown()))
      ensures FirstDay(year, month) == (old(FirstDay(year, month)) + old(DaysInMonth(year, month))) % 7
    {
      var y, m := year, month;
      DateMonthSteps(y, m);
      FirstDayShift(y, m);
      month := m + 1;
    }
  }

  /** `>` followed by `<` restores the cursor exactly. */
  method NextThenPrev(c: Cursor)
    modifies c
    ensures c.year == old(c.year) && c.month == old(c.month)
  {
    c.Next();
    c.Prev();
  }

  /** `<` followed by `>` restores the cursor exactly. */
  method PrevThenNext(c: Cursor)
    modifies c
    ensures c.year == old(c.year) && c.month == old(c.month)
  {
    c.Prev();
    c.Next();
  }
}
