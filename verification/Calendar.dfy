/** The proleptic Gregorian calendar that Go's `time` package computes with in UTC.
    Day 0 is 1 January of year 1, a Monday. */
module Calendar {

  datatype Date = Date(year: int, month: int, day: int)

  predicate IsLeap(y: int) {
    y % 4 == 0 && (y % 100 != 0 || y % 400 == 0)
  }

  function DaysInYear(y: int): int {
    if IsLeap(y) then 366 else 365
  }

  /** Days from 1 January of year 1 to 1 January of year `y`; negative before year 1. */
  function DaysBeforeYear(y: int): int
    decreases if y >= 1 then y else 2 - y
  {
    if y == 1 then 0
    else if y > 1 then DaysBeforeYear(y - 1) + DaysInYear(y - 1)
    else DaysBeforeYear(y + 1) - DaysInYear(y)
  }

  function DaysInMonth(y: int, m: int): int
    requires 1 <= m <= 12
  {
    if m == 2 then (if IsLeap(y) then 29 else 28)
    else if m == 4 || m == 6 || m == 9 || m == 11 then 30
    else 31
  }

  function DaysBeforeMonth(y: int, m: int): int
    requires 1 <= m <= 12
  {
    if m == 1 then 0 else DaysBeforeMonth(y, m - 1) + DaysInMonth(y, m - 1)
  }

  predicate ValidDate(d: Date) {
    1 <= d.month <= 12 && 1 <= d.day <= DaysInMonth(d.year, d.month)
  }

  function DayNumber(d: Date): int
    requires 1 <= d.month <= 12
  {
    DaysBeforeYear(d.year) + DaysBeforeMonth(d.year, d.month) + d.day - 1
  }

  lemma YearLength(y: int)
    ensures DaysBeforeYear(y + 1) == DaysBeforeYear(y) + DaysInYear(y)
  {
  }

  function YearFormula(p: int): int {
    365 * p + p / 4 - p / 100 + p / 400
  }

  lemma YearFormulaStep(p: int)
    ensures YearFormula(p + 1) == YearFormula(p) + DaysInYear(p + 1)
  {
    assert (p + 1) / 4 == p / 4 + (if (p + 1) % 4 == 0 then 1 else 0);
    assert (p + 1) / 100 == p / 100 + (if (p + 1) % 100 == 0 then 1 else 0);
    assert (p + 1) / 400 == p / 400 + (if (p + 1) % 400 == 0 then 1 else 0);
  }

  /** Counting leap days by division gives the same number of days. */
  lemma {:induction false} DaysBeforeYearFormula(y: int)
    ensures DaysBeforeYear(y) == YearFormula(y - 1)
    decreases if y >= 1 then y else 2 - y
  {
    if y > 1 {
      DaysBeforeYearFormula(y - 1);
      YearFormulaStep(y - 2);
    } else if y < 1 {
      DaysBeforeYearFormula(y + 1);
      YearFormulaStep(y - 1);
    }
  }

  lemma MonthLengths(y: int)
    ensures DaysBeforeMonth(y, 12) + DaysInMonth(y, 12) == DaysInYear(y)
    ensures forall m :: 1 <= m <= 12 ==> DaysBeforeMonth(y, m) == MonthTable(y, m)
  {
    forall m | 1 <= m <= 12
      ensures DaysBeforeMonth(y, m) == MonthTable(y, m)
    {
      MonthTableAgrees(y, m);
    }
  }

  /** The closed form of `DaysBeforeMonth`. */
  function MonthTable(y: int, m: int): int
    requires 1 <= m <= 12
  {
    [0, 31, 59, 90, 120, 151, 181, 212, 243, 273, 304, 334][m - 1] + (if m > 2 && IsLeap(y) then 1 else 0)
  }

  lemma {:induction false} MonthTableAgrees(y: int, m: int)
    requires 1 <= m <= 12
    ensures DaysBeforeMonth(y, m) == MonthTable(y, m)
  {
    if m > 1 {
      MonthTableAgrees(y, m - 1);
    }
  }

  lemma {:induction false} YearsMonotone(a: int, b: int)
    requires a <= b
    ensures DaysBeforeYear(a) + 365 * (b - a) <= DaysBeforeYear(b) <= DaysBeforeYear(a) + 366 * (b - a)
    decreases b - a
  {
    if a < b {
      YearsMonotone(a, b - 1);
      YearLength(b - 1);
    }
  }

  /** The year containing day `n`: an estimate from the mean year, off by at most one. */
  function YearOf(n: int): (y: int)
    ensures DaysBeforeYear(y) <= n < DaysBeforeYear(y + 1)
  {
    var e := 400 * n / 146097 + 1;
    YearEstimate(n);
    if n < DaysBeforeYear(e) then e - 1
    else if DaysBeforeYear(e + 1) <= n then e + 1
    else e
  }

  lemma YearEstimate(n: int)
    ensures var e := 400 * n / 146097 + 1; DaysBeforeYear(e - 1) <= n < DaysBeforeYear(e + 2)
  {
    var k := 400 * n / 146097;
    assert 146097 * k <= 400 * n < 146097 * (k + 1);
    YearBounds(k - 1);
    YearBounds(k + 1);
  }

  /** `p` whole years hold 365.2425 * p days, give or take the leap-day rounding. */
  lemma YearBounds(p: int)
    ensures 146097 * p - 700 <= 400 * DaysBeforeYear(p + 1) <= 146097 * p + 400
  {
    DaysBeforeYearFormula(p + 1);
    assert 4 * (p / 4) <= p < 4 * (p / 4) + 4;
    assert 100 * (p / 100) <= p < 100 * (p / 100) + 100;
    assert 400 * (p / 400) <= p < 400 * (p / 400) + 400;
  }

  function MonthFrom(y: int, m: int, yearDay: int): (r: int)
    requires 1 <= m <= 12
    requires DaysBeforeMonth(y, m) <= yearDay < DaysInYear(y)
    ensures 1 <= r <= 12
    ensures DaysBeforeMonth(y, r) <= yearDay < DaysBeforeMonth(y, r) + DaysInMonth(y, r)
    decreases 12 - m
  {
    MonthLengths(y);
    if yearDay < DaysBeforeMonth(y, m) + DaysInMonth(y, m) then m else MonthFrom(y, m + 1, yearDay)
  }

  function DateOf(n: int): (d: Date)
    ensures ValidDate(d)
    ensures DayNumber(d) == n
  {
    var y := YearOf(n);
    YearLength(y);
    var yearDay := n - DaysBeforeYear(y);
    var m := MonthFrom(y, 1, yearDay);
    Date(y, m, yearDay - DaysBeforeMonth(y, m) + 1)
  }

  lemma {:induction false} MonthsMonotone(y: int, a: int, b: int)
    requires 1 <= a < b <= 12
    ensures DaysBeforeMonth(y, a) + DaysInMonth(y, a) <= DaysBeforeMonth(y, b)
    decreases b
  {
    if a + 1 < b {
      MonthsMonotone(y, a, b - 1);
    }
  }

  /** Every calendar date has its own day number, and `DateOf` finds it back. */
  lemma DateOfDayNumber(d: Date)
    requires ValidDate(d)
    ensures DateOf(DayNumber(d)) == d
  {
    DayNumberInjective(d, DateOf(DayNumber(d)));
  }

  lemma DayNumberInjective(d: Date, e: Date)
    requires ValidDate(d) && ValidDate(e) && DayNumber(d) == DayNumber(e)
    ensures d == e
  {
    WithinYear(d);
    WithinYear(e);
    if d.year < e.year {
      YearsMonotone(d.year + 1, e.year);
    } else if e.year < d.year {
      YearsMonotone(e.year + 1, d.year);
    }
    if d.month < e.month {
      MonthsMonotone(d.year, d.month, e.month);
    } else if e.month < d.month {
      MonthsMonotone(d.year, e.month, d.month);
    }
  }

  lemma WithinYear(d: Date)
    requires ValidDate(d)
    ensures DaysBeforeYear(d.year) <= DayNumber(d) < DaysBeforeYear(d.year + 1)
  {
    YearLength(d.year);
    MonthLengths(d.year);
  }

  /** 0 is Sunday. */
  function Weekday(n: int): (w: int)
    ensures 0 <= w <= 6
  {
    (n + 1) % 7
  }

  /** The weekday of a date by Sakamoto's rule: years counted from March, and one number a month. */
  function WeekdayByRule(d: Date): int
    requires 1 <= d.month <= 12
  {
    var y := if d.month < 3 then d.year - 1 else d.year;
    (y + y / 4 - y / 100 + y / 400 + MonthShift(d.month) + d.day) % 7
  }

  function MonthShift(m: int): int
    requires 1 <= m <= 12
  {
    [0, 3, 2, 5, 0, 3, 5, 1, 4, 6, 2, 4][m - 1]
  }

  lemma SameRemainder(a: int, b: int, k: int)
    requires a == b + 7 * k
    ensures a % 7 == b % 7
  {
  }

  lemma MonthShiftIsTable(y: int, m: int) returns (k: int)
    requires 1 <= m <= 12
    ensures MonthTable(y, m) == MonthShift(m) + 7 * k + (if m < 3 then 0 else if IsLeap(y) then 2 else 1)
  {
    hide IsLeap;
    k := [0, 4, 8, 12, 17, 21, 25, 30, 34, 38, 43, 47][m - 1];
  }

  /** Counting days from a Monday gives every date the weekday that the rule gives it. */
  lemma WeekdayFollowsRule(d: Date)
    requires ValidDate(d)
    ensures Weekday(DayNumber(d)) == WeekdayByRule(d)
  {
    hide DaysBeforeYear, DaysBeforeMonth, DaysInMonth, IsLeap, YearFormula, MonthTable, MonthShift;
    var p := d.year - 1;
    DaysBeforeYearFormula(d.year);
    MonthLengths(d.year);
    YearFormulaStep(p);
    RuleCountsYears(p);
    RuleCountsYears(d.year);
    var k := MonthShiftIsTable(d.year, d.month);
    var counted := YearFormula(p) + MonthTable(d.year, d.month) + d.day;
    if d.month < 3 {
      SameRemainder(counted, YearFormula(p) - 364 * p + MonthShift(d.month) + d.day, 52 * p + k);
    } else {
      SameRemainder(counted, YearFormula(d.year) - 364 * d.year + MonthShift(d.month) + d.day, 52 * p + k);
    }
  }

  lemma RuleCountsYears(y: int)
    ensures y + y / 4 - y / 100 + y / 400 == YearFormula(y) - 364 * y
  {
  }

  /** Midnight of the first day of the month after day `n`'s. */
  function FirstOfNextMonth(n: int): int {
    var d := DateOf(n);
    DayNumber(if d.month == 12 then Date(d.year + 1, 1, 1) else Date(d.year, d.month + 1, 1))
  }

  lemma NextMonthBegins(y: int, m: int)
    requires 1 <= m < 12
    ensures DaysBeforeMonth(y, m + 1) == DaysBeforeMonth(y, m) + DaysInMonth(y, m)
  {
  }

  lemma NextMonthStart(n: int)
    ensures FirstOfNextMonth(n) == n - DateOf(n).day + 1 + DaysInMonth(DateOf(n).year, DateOf(n).month)
  {
    hide IsLeap, DaysInMonth, DaysInYear, DaysBeforeYear, DaysBeforeMonth, MonthTable;
    var d := DateOf(n);
    MonthLengths(d.year);
    YearLength(d.year);
    if d.month < 12 {
      NextMonthBegins(d.year, d.month);
    }
    NewYear(d.year + 1);
  }

  lemma NewYear(y: int)
    ensures DayNumber(Date(y, 1, 1)) == DaysBeforeYear(y)
  {
  }

  /** Up to the first of next month, every day lies in the month of day `n`. */
  lemma SameMonthUntilNext(n: int, k: int)
    requires n <= k < FirstOfNextMonth(n)
    ensures DateOf(k).year == DateOf(n).year && DateOf(k).month == DateOf(n).month
  {
    var d := DateOf(n);
    NextMonthStart(n);
    var same := Date(d.year, d.month, d.day + (k - n));
    assert DayNumber(same) == k;
    DateOfDayNumber(same);
  }
}
