/** When a cron schedule fires, minute by minute, and how far apart its firings can be.
    A time is a whole number of minutes since midnight UTC, 1 January of year 1. */
module CronSchedule {
  import opened Calendar

  /** A parsed expression: one bitset per field, indexed by the field's values. */
  datatype Schedule = Schedule(
    minute: seq<bool>, hour: seq<bool>, dom: seq<bool>, month: seq<bool>, dow: seq<bool>,
    domStar: bool, dowStar: bool)

  const MINUTES_PER_DAY := 1440
  const MAX_SCAN_DAYS := 8 * 366

  predicate WellSized(s: Schedule) {
    |s.minute| == 60 && |s.hour| == 24 && |s.dom| == 32 && |s.month| == 13 && |s.dow| == 7
  }

  ghost predicate AnyBit(bits: seq<bool>, min: nat, max: nat) {
    exists v :: min <= v <= max && v < |bits| && bits[v]
  }

  /** What parsing guarantees: every field admits at least one of its values. */
  ghost predicate Inhabited(s: Schedule) {
    && WellSized(s)
    && AnyBit(s.minute, 0, 59) && AnyBit(s.hour, 0, 23)
    && AnyBit(s.dom, 1, 31) && AnyBit(s.month, 1, 12) && AnyBit(s.dow, 0, 6)
  }

  /** The day rule: two restricted day fields are alternatives, a starred one is no restriction. */
  predicate DayMatches(s: Schedule, n: int)
    requires WellSized(s)
  {
    var domOK := s.dom[DateOf(n).day];
    var dowOK := s.dow[Weekday(n)];
    if s.domStar && s.dowStar then true
    else if s.domStar then dowOK
    else if s.dowStar then domOK
    else domOK || dowOK
  }

  predicate Matches(s: Schedule, t: int)
    requires WellSized(s)
  {
    var n := t / MINUTES_PER_DAY;
    && s.month[DateOf(n).month]
    && DayMatches(s, n)
    && s.hour[t % MINUTES_PER_DAY / 60]
    && s.minute[t % 60]
  }

  ghost predicate NoMatch(s: Schedule, from: int, to: int)
    requires WellSized(s)
  {
    forall t :: from <= t < to ==> !Matches(s, t)
  }

  lemma NoMatchExtends(s: Schedule, from: int, middle: int, to: int)
    requires WellSized(s) && NoMatch(s, from, middle) && NoMatch(s, middle, to)
    ensures NoMatch(s, from, to)
  {
  }

  lemma NoMatchBefore(s: Schedule, from: int, middle: int, to: int)
    requires WellSized(s) && NoMatch(s, from, to) && middle <= to
    ensures NoMatch(s, from, middle)
  {
  }

  lemma NoMatchInNothing(s: Schedule, t: int)
    requires WellSized(s)
    ensures NoMatch(s, t, t)
  {
  }

  lemma FieldsMatch(s: Schedule, t: int)
    requires WellSized(s) && s.month[DateOf(t / MINUTES_PER_DAY).month] && DayMatches(s, t / MINUTES_PER_DAY)
    requires s.hour[t % MINUTES_PER_DAY / 60] && s.minute[t % 60]
    ensures Matches(s, t)
  {
  }

  // ---- the three jumps ----

  function MonthJump(t: int): int {
    FirstOfNextMonth(t / MINUTES_PER_DAY) * MINUTES_PER_DAY
  }

  function DayJump(t: int): int {
    (t / MINUTES_PER_DAY + 1) * MINUTES_PER_DAY
  }

  function HourJump(t: int): int {
    (t / 60 + 1) * 60
  }

  /** No minute between `t` and the first of next month lies in an admitted month. */
  lemma MonthJumpSkipsNothing(s: Schedule, t: int)
    requires WellSized(s) && !s.month[DateOf(t / MINUTES_PER_DAY).month]
    ensures t < MonthJump(t) && NoMatch(s, t, MonthJump(t))
  {
    var n := t / MINUTES_PER_DAY;
    NextMonthStart(n);
    forall u | t <= u < MonthJump(t)
      ensures !Matches(s, u)
    {
      SameMonthUntilNext(n, u / MINUTES_PER_DAY);
    }
  }

  lemma DayJumpSkipsNothing(s: Schedule, t: int)
    requires WellSized(s) && !DayMatches(s, t / MINUTES_PER_DAY)
    ensures t < DayJump(t) && NoMatch(s, t, DayJump(t))
  {
    forall u | t <= u < DayJump(t)
      ensures !Matches(s, u)
    {
      assert u / MINUTES_PER_DAY == t / MINUTES_PER_DAY;
    }
  }

  lemma HourJumpSkipsNothing(s: Schedule, t: int)
    requires WellSized(s) && !s.hour[t % MINUTES_PER_DAY / 60]
    ensures t < HourJump(t) && NoMatch(s, t, HourJump(t))
  {
    HourOfDay(t);
    forall u | t <= u < HourJump(t)
      ensures !Matches(s, u)
    {
      assert u / 60 == t / 60;
      HourOfDay(u);
    }
  }

  lemma MinuteStepSkipsNothing(s: Schedule, t: int)
    requires WellSized(s) && !s.minute[t % 60]
    ensures NoMatch(s, t, t + 1)
  {
  }

  lemma HourOfDay(u: int)
    ensures u % MINUTES_PER_DAY / 60 == u / 60 % 24
  {
    var q, r := u / MINUTES_PER_DAY, u % MINUTES_PER_DAY;
    assert u == 60 * (24 * q) + r;
    assert u / 60 == 24 * q + r / 60;
  }

  // ---- how far away the next firing can be ----

  function LongestMonth(m: int): int
    requires 1 <= m <= 12
  {
    if m == 2 then 29 else DaysInMonth(1, m)
  }

  /** Some calendar date meets the month and day rules. Only a schedule whose days are given by
      day of month alone can fail this, by naming days its months never have. */
  ghost predicate HasDate(s: Schedule)
    requires WellSized(s)
  {
    || s.domStar
    || !s.dowStar
    || exists m, d :: 1 <= m <= 12 && 1 <= d <= LongestMonth(m) && s.month[m] && s.dom[d]
  }

  lemma DatelessNeverMatches(s: Schedule, t: int)
    requires WellSized(s) && !HasDate(s)
    ensures !Matches(s, t)
  {
    var d := DateOf(t / MINUTES_PER_DAY);
    assert 1 <= d.day <= LongestMonth(d.month);
  }

  lemma LeapDayNumber(y: int)
    requires IsLeap(y)
    ensures ValidDate(Date(y, 2, 29)) && DayNumber(Date(y, 2, 29)) == DaysBeforeYear(y) + 59
    ensures DateOf(DaysBeforeYear(y) + 59) == Date(y, 2, 29)
  {
    assert DaysBeforeMonth(y, 2) == 31;
    DateOfDayNumber(Date(y, 2, 29));
  }

  /** 29 February comes round within eight years, even across a century without one. */
  lemma LeapDayWithin(n: int) returns (k: int)
    ensures n < k <= n + 2921
    ensures DateOf(k).month == 2 && DateOf(k).day == 29
  {
    hide IsLeap, DaysBeforeYear, DaysBeforeMonth, DayNumber, ValidDate;
    var y := DateOf(n).year;
    WithinYear(DateOf(n));
    var leap := if IsLeap(y) && n < DaysBeforeYear(y) + 59 then y else NextLeapYear(y);
    LeapDayNumber(leap);
    k := DaysBeforeYear(leap) + 59;
    if y < leap {
      YearsMonotone(y + 1, leap);
    }
    LeapSpan(y, leap);
  }

  lemma NotLeapBetween(a: int, x: int)
    requires 4 * a < x < 4 * a + 4
    ensures !IsLeap(x)
  {
    assert x % 4 == x - 4 * a;
  }

  lemma LeapEveryFourOrEight(a: int)
    requires !IsLeap(4 * a)
    ensures IsLeap(4 * a + 4) && IsLeap(4 * a - 4)
  {
    var q := 4 * a / 100;
    assert 4 * a == 100 * q;
    assert (4 * a + 4) % 100 == 4 && (4 * a - 4) % 100 == 96;
  }

  function NextLeapYear(y: int): (l: int)
    ensures IsLeap(l) && y < l <= y + 8
    ensures l == y + 8 ==> IsLeap(y)
    ensures forall x :: y < x < l ==> !IsLeap(x)
  {
    var a := y / 4 + 1;
    assert forall x :: y < x < 4 * a ==> !IsLeap(x) by {
      forall x | y < x < 4 * a
        ensures !IsLeap(x)
      {
        NotLeapBetween(a - 1, x);
      }
    }
    if IsLeap(4 * a) then 4 * a
    else
      LeapEveryFourOrEight(a);
      assert forall x :: 4 * a < x < 4 * a + 4 ==> !IsLeap(x) by {
        forall x | 4 * a < x < 4 * a + 4
          ensures !IsLeap(x)
        {
          NotLeapBetween(a, x);
        }
      }
      4 * a + 4
  }

  lemma {:induction false} LeapSpan(y: int, l: int)
    requires y <= l && forall x :: y < x < l ==> !IsLeap(x)
    ensures DaysBeforeYear(l) <= DaysBeforeYear(y) + 365 * (l - y) + (if IsLeap(y) then 1 else 0)
    decreases l - y
  {
    if y < l {
      LeapSpan(y, l - 1);
      YearLength(l - 1);
    }
  }

  /** The eight-year gap does occur, so four years of scanning would not be enough: the first
      29 February after that of 1896 is 2921 days later. */
  lemma LeapGapAttained(d: Date)
    requires ValidDate(d) && d.month == 2 && d.day == 29
    requires DayNumber(Date(1896, 2, 29)) < DayNumber(d)
    ensures DayNumber(Date(1896, 2, 29)) + 2921 == DayNumber(Date(1904, 2, 29)) <= DayNumber(d)
  {
    assert d == Date(d.year, 2, 29) && IsLeap(d.year);
    assert DaysBeforeMonth(d.year, 2) == 31;
    if d.year < 1896 {
      YearsMonotone(d.year, 1896);
    }
    assert 1904 <= d.year;
    YearsMonotone(1904, d.year);
  }

  /** A date of month `m` in the year after day `n`'s is less than two years ahead. */
  lemma NextYearIsNear(n: int, m: int, day: int)
    requires 1 <= m <= 12 && 1 <= day <= DaysInMonth(DateOf(n).year + 1, m)
    ensures n < DayNumber(Date(DateOf(n).year + 1, m, day)) <= n + 731
  {
    var y := DateOf(n).year;
    WithinYear(DateOf(n));
    WithinYear(Date(y + 1, m, day));
    YearLength(y);
    YearLength(y + 1);
  }

  function DaysUntilWeekday(n: int, w: int): (d: int)
    requires 0 <= w <= 6
    ensures 0 <= d <= 6
  {
    var diff := w - Weekday(n);
    if diff >= 0 then diff else diff + 7
  }

  lemma WeekdayReached(n: int, w: int)
    requires 0 <= w <= 6
    ensures Weekday(n + DaysUntilWeekday(n, w)) == w
  {
    var q := (n + 1) / 7;
    assert n + 1 == 7 * q + Weekday(n);
  }

  /** Any month holds every weekday among its first seven days. */
  lemma WeekdayInMonth(y: int, m: int, w: int) returns (d: Date)
    requires 1 <= m <= 12 && 0 <= w <= 6
    ensures d.year == y && d.month == m && 1 <= d.day <= 7
    ensures Weekday(DayNumber(d)) == w
  {
    var first := DayNumber(Date(y, m, 1));
    WeekdayReached(first, w);
    d := Date(y, m, 1 + DaysUntilWeekday(first, w));
  }

  lemma MatchingWeekdayWithin(s: Schedule, n: int, m: int, w: int) returns (k: int)
    requires WellSized(s) && (s.domStar || !s.dowStar)
    requires 1 <= m <= 12 && s.month[m] && 0 <= w <= 6 && s.dow[w]
    ensures n < k <= n + 2921
    ensures s.month[DateOf(k).month] && DayMatches(s, k)
  {
    var d := WeekdayInMonth(DateOf(n).year + 1, m, w);
    DateOfDayNumber(d);
    NextYearIsNear(n, m, d.day);
    k := DayNumber(d);
  }

  lemma MatchingDateWithin(s: Schedule, n: int, m: int, day: int) returns (k: int)
    requires WellSized(s) && s.dowStar
    requires 1 <= m <= 12 && 1 <= day <= LongestMonth(m) && s.month[m] && s.dom[day]
    ensures n < k <= n + 2921
    ensures s.month[DateOf(k).month] && DayMatches(s, k)
  {
    if m == 2 && day == 29 {
      k := LeapDayWithin(n);
    } else {
      var d := Date(DateOf(n).year + 1, m, day);
      DateOfDayNumber(d);
      NextYearIsNear(n, m, day);
      k := DayNumber(d);
    }
  }

  lemma MatchingDayWithin(s: Schedule, n: int) returns (k: int)
    requires Inhabited(s) && HasDate(s)
    ensures n < k <= n + 2921
    ensures s.month[DateOf(k).month] && DayMatches(s, k)
  {
    if s.domStar || !s.dowStar {
      var m: int :| 1 <= m <= 12 && m < |s.month| && s.month[m];
      var w: int :| 0 <= w <= 6 && w < |s.dow| && s.dow[w];
      k := MatchingWeekdayWithin(s, n, m, w);
    } else {
      var m, day :| 1 <= m <= 12 && 1 <= day <= LongestMonth(m) && s.month[m] && s.dom[day];
      k := MatchingDateWithin(s, n, m, day);
    }
  }

  lemma ClockReading(k: int, h: int, m: int)
    requires 0 <= h <= 23 && 0 <= m <= 59
    ensures var t := k * MINUTES_PER_DAY + h * 60 + m;
      t / MINUTES_PER_DAY == k && t % MINUTES_PER_DAY / 60 == h && t % 60 == m
  {
    var t := k * MINUTES_PER_DAY + h * 60 + m;
    assert t / MINUTES_PER_DAY == k;
    assert t == 60 * (24 * k + h) + m;
  }

  /** The scan bound is sufficient: from any minute, a schedule that fires at all fires
      within `MAX_SCAN_DAYS`. */
  lemma ScanBoundSuffices(s: Schedule, start: int) returns (t: int)
    requires Inhabited(s) && HasDate(s)
    ensures start <= t < start + MAX_SCAN_DAYS * MINUTES_PER_DAY && Matches(s, t)
  {
    var k := MatchingDayWithin(s, start / MINUTES_PER_DAY);
    var h :| 0 <= h <= 23 && h < |s.hour| && s.hour[h];
    var m :| 0 <= m <= 59 && m < |s.minute| && s.minute[m];
    t := k * MINUTES_PER_DAY + h * 60 + m;
    ClockReading(k, h, m);
  }

  /** Scanning the bounded window finds nothing exactly when no date ever fits the schedule. */
  lemma WindowEmptyIffDateless(s: Schedule, start: int)
    requires Inhabited(s)
    ensures NoMatch(s, start, start + MAX_SCAN_DAYS * MINUTES_PER_DAY) <==> !HasDate(s)
  {
    if HasDate(s) {
      var t := ScanBoundSuffices(s, start);
    } else {
      forall t
        ensures !Matches(s, t)
      {
        DatelessNeverMatches(s, t);
      }
    }
  }
}
