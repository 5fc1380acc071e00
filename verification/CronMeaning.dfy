/** What the documentation of cron expressions promises, said of clock and calendar: the minutes at
    which a written expression fires, and the one the search returns. */
module CronMeaning {
  import opened Text
  import opened Calendar
  import opened CronSchedule
  import opened CronExpr
  import opened CronGrammar

  /** What clock and calendar show at minute `t`. */
  ghost predicate Reads(t: int, d: Date, hour: int, minute: int) {
    && ValidDate(d) && 0 <= hour <= 23 && 0 <= minute <= 59
    && t == 1440 * DayNumber(d) + 60 * hour + minute
  }

  /** The documented rule for days: both fields have to hold if one of them is a star, and when
      both are restricted one is enough. */
  ghost predicate DayAsDocumented(l: Layout, d: Date)
    requires ValidDate(d)
  {
    var byMonth, byWeek := FieldMeans(l.dom, d.day, 1, 31), FieldMeans(l.dow, WeekdayByRule(d), 0, 6);
    if l.dom == [Every] || l.dow == [Every] then byMonth && byWeek else byMonth || byWeek
  }

  /** The expression fires on date `d` at `hour`:`minute`. */
  ghost predicate FiresOn(l: Layout, d: Date, hour: int, minute: int)
    requires ValidDate(d)
  {
    && FieldMeans(l.minute, minute, 0, 59)
    && FieldMeans(l.hour, hour, 0, 23)
    && FieldMeans(l.month, d.month, 1, 12)
    && DayAsDocumented(l, d)
  }

  ghost predicate FiresAt(l: Layout, t: int) {
    exists d, hour, minute :: Reads(t, d, hour, minute) && FiresOn(l, d, hour, minute)
  }

  lemma EveryMeansAll(v: int, min: nat, max: nat)
    requires min <= v <= max
    ensures FieldMeans([Every], v, min, max)
  {
    assert Every in [Every] && Means(Every, v, min, max);
  }

  lemma ReadingIsUnique(t: int, d: Date, hour: int, minute: int)
    requires Reads(t, d, hour, minute)
    ensures DateOf(t / MINUTES_PER_DAY) == d && t % MINUTES_PER_DAY / 60 == hour && t % 60 == minute
    ensures t / MINUTES_PER_DAY == DayNumber(d)
  {
    hide DayNumber, DaysInMonth;
    ClockReading(DayNumber(d), hour, minute);
    DateOfDayNumber(d);
  }

  lemma EveryMinuteReads(t: int) returns (d: Date, hour: int, minute: int)
    ensures Reads(t, d, hour, minute)
  {
    d, hour, minute := DateOf(t / 1440), t % 1440 / 60, t % 60;
    assert t == 60 * (t / 60) + t % 60;
    HourOfDay(t);
    assert t / 60 == 24 * (t / 60 / 24) + t / 60 % 24;
    assert t / 60 / 24 == t / 1440;
  }

  /** A schedule matches a minute exactly when the documentation says so of what clock and calendar show. */
  lemma MatchesAsDocumented(l: Layout, s: Schedule, t: int, d: Date, hour: int, minute: int)
    requires LegalLayout(l) && LayoutMeans(l, s) && Reads(t, d, hour, minute)
    ensures Matches(s, t) <==> FiresOn(l, d, hour, minute)
  {
    hide FieldMeans, LegalField, DayNumber, IsLeap, DaysInMonth, WeekdayByRule;
    ReadingIsUnique(t, d, hour, minute);
    WeekdayFollowsRule(d);
    DayOfMonthAtMost31(d);
    EveryMeansAll(d.day, 1, 31);
    EveryMeansAll(WeekdayByRule(d), 0, 6);
  }

  lemma DayOfMonthAtMost31(d: Date)
    requires ValidDate(d)
    ensures 1 <= d.day <= 31
  {
  }

  lemma MatchesIffFires(l: Layout, s: Schedule, t: int)
    requires LegalLayout(l) && LayoutMeans(l, s)
    ensures Matches(s, t) <==> FiresAt(l, t)
  {
    hide Matches, FiresOn, LegalLayout, Reads, ValidDate, BitsMean;
    assert WellSized(s);
    forall d, hour, minute | Reads(t, d, hour, minute)
      ensures ValidDate(d) && (Matches(s, t) <==> FiresOn(l, d, hour, minute))
    {
      ReadsValid(t, d, hour, minute);
      MatchesAsDocumented(l, s, t, d, hour, minute);
    }
    var d, hour, minute := EveryMinuteReads(t);
  }

  lemma ReadsValid(t: int, d: Date, hour: int, minute: int)
    requires Reads(t, d, hour, minute)
    ensures ValidDate(d)
  {
  }

  lemma SearchAsDocumented(l: Layout, s: Schedule, start: int, r: Option<int>)
    requires LegalLayout(l) && LayoutMeans(l, s) && Inhabited(s) && IsNext(s, start, r)
    ensures r.Some? ==> start <= r.value && FiresAt(l, r.value) && forall t :: start <= t < r.value ==> !FiresAt(l, t)
    ensures r == None ==> forall t :: !FiresAt(l, t)
  {
    hide LegalLayout, Matches, FiresAt, BitsMean, HasDate, AnyBit;
    NextFailsIffDateless(s, start, r);
    forall t: int
      ensures Matches(s, t) <==> FiresAt(l, t)
      ensures r == None ==> !Matches(s, t)
    {
      MatchesIffFires(l, s, t);
      if r == None {
        DatelessNeverMatches(s, t);
      }
    }
  }

  /** Parsing a written expression and searching it: the answer is the first minute from `start` on at
      which the expression fires by its documentation, and without an answer there is no such minute,
      ever. */
  lemma NextAsDocumented(l: Layout, s: Schedule, start: int, r: Option<int>)
    requires LegalLayout(l) && Describes(WrittenExpression(l), s) && IsNext(s, start, r)
    ensures r.Some? ==> start <= r.value && FiresAt(l, r.value) && forall t :: start <= t < r.value ==> !FiresAt(l, t)
    ensures r == None <==> forall t :: !FiresAt(l, t)
  {
    hide Describes, LegalLayout, LayoutMeans, IsNext, FiresAt, WrittenExpression, Inhabited;
    WrittenExpressionParses(l, s);
    DescribedIsInhabited(WrittenExpression(l), s);
    SearchAsDocumented(l, s, start, r);
  }
}
