/** The calendar arithmetic of the ECMAScript Date object that the month view
    relies on (section 21.4.1 of ECMA-262, "Time Values and Time Range"),
    taken at the granularity of whole days: a date is its day number, the
    count of days since 1 January 1970, negative before it. The calendar is
    the proleptic Gregorian one. */
module JsDate {

  /** The Gregorian leap-year rule: divisible by 4, and not by 100 unless by 400. */
  predicate IsLeapYear(y: int) {
    y % 4 == 0 && (y % 100 != 0 || y % 400 == 0)
  }

  /** Number of days in month m (0 = January .. 11 = December) of year y. */
  function MonthLength(y: int, m: int): int
    requires 0 <= m < 12
  {
    if m == 1 then (if IsLeapYear(y) then 29 else 28)
    else if m == 3 || m == 5 || m == 8 || m == 10 then 30
    else 31
  }

  /** Days of year y that lie before the first of month m; month 12 stands
      for the end of the year. This is the threshold table of MonthFromTime
      and DateFromTime. */
  function DaysBeforeMonth(y: int, m: int): int
    requires 0 <= m <= 12
  {
    var leap := if IsLeapYear(y) then 1 else 0;
    if m == 0 then 0
    else if m == 1 then 31
    else if m == 2 then 59 + leap
    else if m == 3 then 90 + leap
    else if m == 4 then 120 + leap
    else if m == 5 then 151 + leap
    else if m == 6 then 181 + leap
    else if m == 7 then 212 + leap
    else if m == 8 then 243 + leap
    else if m == 9 then 273 + leap
    else if m == 10 then 304 + leap
    else if m == 11 then 334 + leap
    else 365 + leap
  }

  /** Consecutive thresholds of the table are one month length apart. */
  lemma DaysBeforeMonthStep(y: int, m: int)
    requires 0 <= m < 12
    ensures DaysBeforeMonth(y, m + 1) == DaysBeforeMonth(y, m) + MonthLength(y, m)
  {
  }

  /** The threshold table is strictly increasing in the month. */
  lemma DaysBeforeMonthMonotone(y: int, a: int, b: int)
    requires 0 <= a < b <= 12
    ensures DaysBeforeMonth(y, a) + MonthLength(y, a) <= DaysBeforeMonth(y, b)
  {
  }

  /** DayFromYear: the day number of 1 January of year y. Dafny's `/` with a
      positive divisor rounds towards minus infinity, like `floor` in the
      standard. */
  function DayFromYear(y: int): int {
    365 * (y - 1970) + (y - 1969) / 4 - (y - 1901) / 100 + (y - 1601) / 400
  }

  /** Day 0 is 1 January 1970; the years on either side of it are common years. */
  lemma DayFromYearEpoch()
    ensures DayFromYear(1970) == 0
    ensures DayFromYear(1969) == -365 && DayFromYear(1971) == 365
  {
  }

  /** The leap-year quotients grow by one exactly when the dividend reaches a multiple of the divisor. */
  lemma FloorSteps(a: int)
    ensures (a + 1) / 4 == a / 4 + (if (a + 1) % 4 == 0 then 1 else 0)
    ensures (a + 1) / 100 == a / 100 + (if (a + 1) % 100 == 0 then 1 else 0)
    ensures (a + 1) / 400 == a / 400 + (if (a + 1) % 400 == 0 then 1 else 0)
  {
  }

  /** Shifting a year by a multiple of 4, 100 or 400 keeps its leap-year residues. */
  lemma LeapResidues(y: int)
    ensures y % 100 == 0 ==> y % 4 == 0
    ensures y % 400 == 0 ==> y % 100 == 0
    ensures (y - 1968) % 4 == 0 <==> y % 4 == 0
    ensures (y - 1900) % 100 == 0 <==> y % 100 == 0
    ensures (y - 1600) % 400 == 0 <==> y % 400 == 0
  {
    CenturyResidues(y);
    ShiftResidue4(y);
    ShiftResidue100(y);
    ShiftResidue400(y);
  }

  /** A multiple of 400 is a multiple of 100, and a multiple of 100 one of 4. */
  lemma CenturyResidues(y: int)
    ensures y % 100 == 0 ==> y % 4 == 0
    ensures y % 400 == 0 ==> y % 100 == 0
  {
  }

  /** 1968, 1900 and 1600 are multiples of 4, 100 and 400, so subtracting
      them keeps the residue. */
  lemma ShiftResidue4(y: int)
    ensures (y - 1968) % 4 == y % 4
  {
  }

  lemma ShiftResidue100(y: int)
    ensures (y - 1900) % 100 == y % 100
  {
  }

  lemma ShiftResidue400(y: int)
    ensures (y - 1600) % 400 == y % 400
  {
  }

  /** DayFromYear grows by 365, plus one for each leap-year residue of y that is zero. */
  lemma DayFromYearDiff(y: int)
    ensures DayFromYear(y + 1) - DayFromYear(y)
         == 365 + (if y % 4 == 0 then 1 else 0) - (if y % 100 == 0 then 1 else 0) + (if y % 400 == 0 then 1 else 0)
  {
    FloorSteps(y - 1969);
    FloorSteps(y - 1901);
    FloorSteps(y - 1601);
    LeapResidues(y);
  }

  /** Consecutive years start as many days apart as the first of them is long. */
  lemma DayFromYearStep(y: int)
    ensures DayFromYear(y + 1) == DayFromYear(y) + DaysBeforeMonth(y, 12)
  {
    DayFromYearDiff(y);
    LeapResidues(y);
  }

  /** Every year is at least 365 days long, so DayFromYear is strictly increasing. */
  lemma {:induction false} DayFromYearMonotone(a: int, b: int)
    requires a <= b
    ensures DayFromYear(a) + 365 * (b - a) <= DayFromYear(b)
    decreases b - a
  {
    if a < b {
      DayFromYearStep(a);
      DayFromYearMonotone(a + 1, b);
    }
  }

  /** The year that contains day t, found by walking from year y towards t. */
  function YearSearch(t: int, y: int): (r: int)
    ensures DayFromYear(r) <= t < DayFromYear(r + 1)
    decreases if t < DayFromYear(y) then 1 else 0,
              if t < DayFromYear(y) then DayFromYear(y) - t else t - DayFromYear(y)
  {
    DayFromYearStep(y - 1);
    DayFromYearStep(y);
    if t < DayFromYear(y) then YearSearch(t, y - 1)
    else if DayFromYear(y + 1) <= t then YearSearch(t, y + 1)
    else y
  }

  /** YearFromTime: the largest year whose first day is not after day t. */
  function YearFromTime(t: int): (y: int)
    ensures DayFromYear(y) <= t < DayFromYear(y + 1)
  {
    YearSearch(t, 1970)
  }

  /** Only one year contains a given day. */
  lemma YearFromTimeUnique(t: int, y: int)
    requires DayFromYear(y) <= t < DayFromYear(y + 1)
    ensures YearFromTime(t) == y
  {
    var r := YearFromTime(t);
    if r < y {
      DayFromYearMonotone(r + 1, y);
    } else if r > y {
      DayFromYearMonotone(y + 1, r);
    }
  }

  /** DayWithinYear: the zero-based position of day t in its year. */
  function DayWithinYear(t: int): (d: int)
    ensures 0 <= d < DaysBeforeMonth(YearFromTime(t), 12)
  {
    DayFromYearStep(YearFromTime(t));
    t - DayFromYear(YearFromTime(t))
  }

  /** The last month of year y, at or before month m, that starts on or before day d of the year. */
  function MonthSearch(y: int, d: int, m: int): (r: int)
    requires 0 <= m < 12 && 0 <= d < DaysBeforeMonth(y, m + 1)
    ensures 0 <= r <= m && DaysBeforeMonth(y, r) <= d < DaysBeforeMonth(y, r + 1)
    decreases m
  {
    if DaysBeforeMonth(y, m) <= d then m else MonthSearch(y, d, m - 1)
  }

  /** MonthFromTime: the month (0..11) that contains day t. */
  function MonthFromTime(t: int): (m: int)
    ensures 0 <= m < 12
    ensures DaysBeforeMonth(YearFromTime(t), m) <= DayWithinYear(t) < DaysBeforeMonth(YearFromTime(t), m + 1)
  {
    MonthSearch(YearFromTime(t), DayWithinYear(t), 11)
  }

  /** DateFromTime: the day of the month (1..31) of day t. */
  function DateFromTime(t: int): (d: int)
    ensures 1 <= d <= MonthLength(YearFromTime(t), MonthFromTime(t))
  {
    DaysBeforeMonthStep(YearFromTime(t), MonthFromTime(t));
    DayWithinYear(t) - DaysBeforeMonth(YearFromTime(t), MonthFromTime(t)) + 1
  }

  /** WeekDay: 0 = Sunday .. 6 = Saturday; day 0, 1 January 1970, was a Thursday. */
  function WeekDay(t: int): (w: int)
    ensures 0 <= w < 7
    ensures (t - w) % 7 == 3
  {
    (t + 4) % 7
  }

  /** Moving k days on moves the weekday by k, modulo 7. */
  lemma WeekDayShift(t: int, k: int)
    ensures WeekDay(t + k) == (WeekDay(t) + k) % 7
  {
  }

  /** MakeDay: the day number of day d of month m of year y. A month outside
      0..11 moves the year by floor(m / 12) and is taken modulo 12, and a day
      outside the month runs on into the following months. */
  function MakeDay(y: int, m: int, d: int): int {
    var ym := y + m / 12;
    var mn := m % 12;
    DayFromYear(ym) + DaysBeforeMonth(ym, mn) + d - 1
  }

  /** Day d of a month lies d - 1 days after its first day. */
  lemma MakeDayOffset(y: int, m: int, d: int)
    ensures MakeDay(y, m, d) == MakeDay(y, m, 1) + d - 1
  {
  }

  /** MakeDay of an out-of-range month is MakeDay of the normalised year and
      month, for any day. */
  lemma MakeDayNormalises(y: int, m: int, d: int)
    ensures MakeDay(y, m, d) == MakeDay(y + m / 12, m % 12, d)
  {
    assert (m % 12) / 12 == 0 && (m % 12) % 12 == m % 12;
  }

  /** The `Date` constructor reads a year argument 0..99 as 1900..1999: the
      year it uses is never in 0..99, and any other year passes through. */
  function ConstructorYear(y: int): (r: int)
    ensures !(0 <= r <= 99)
    ensures !(0 <= y <= 99) ==> r == y
  {
    if 0 <= y <= 99 then 1900 + y else y
  }

  /** `new Date(y, m, d)`, as the number of the local day it denotes. */
  function NewDate(y: int, m: int, d: int): int {
    MakeDay(ConstructorYear(y), m, d)
  }

  /** Reading the year, month and day back from a valid calendar date gives that date. */
  lemma CalendarRoundTrip(y: int, m: int, d: int)
    requires 0 <= m < 12 && 1 <= d <= MonthLength(y, m)
    ensures YearFromTime(MakeDay(y, m, d)) == y
    ensures MonthFromTime(MakeDay(y, m, d)) == m
    ensures DateFromTime(MakeDay(y, m, d)) == d
  {
    assert m / 12 == 0 && m % 12 == m;
    var t := MakeDay(y, m, d);
    var w := DaysBeforeMonth(y, m) + d - 1;
    assert t == DayFromYear(y) + w;
    DaysBeforeMonthStep(y, m);
    if m < 11 {
      DaysBeforeMonthMonotone(y, m + 1, 12);
    }
    assert 0 <= w < DaysBeforeMonth(y, 12);
    DayFromYearStep(y);
    YearFromTimeUnique(t, y);
    assert DayWithinYear(t) == w;
    var r := MonthFromTime(t);
    if r < m {
      DaysBeforeMonthMonotone(y, r, m);
    } else if r > m {
      DaysBeforeMonthMonotone(y, m, r);
    }
  }

  /** Every day number is the day of the date read back from it. */
  lemma TimeRoundTrip(t: int)
    ensures MakeDay(YearFromTime(t), MonthFromTime(t), DateFromTime(t)) == t
  {
    var y, m, d := YearFromTime(t), MonthFromTime(t), DateFromTime(t);
    assert m / 12 == 0 && m % 12 == m;
    assert MakeDay(y, m, d) == DayFromYear(y) + DaysBeforeMonth(y, m) + d - 1;
    assert d - 1 == DayWithinYear(t) - DaysBeforeMonth(y, m);
  }
}
