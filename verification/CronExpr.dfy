/** Cron expressions: parsing into bitsets, and the search for the next firing that jumps over
    months, days and hours instead of trying every minute. */
module CronExpr {
  import opened Text
  import opened Calendar
  import opened CronSchedule
  import opened CronFields

  datatype FieldName = DayOfMonth | DayOfWeek | Minute | Hour | Month

  datatype ParseOutcome =
    | Parsed
    | WrongFieldCount(count: nat)
    | BadField(field: FieldName, error: ItemError)
    | ParserCrashed

  function Failure(name: FieldName, f: FieldOutcome): ParseOutcome
    requires !f.Filled?
  {
    if f.Crashed? then ParserCrashed else BadField(name, f.error)
  }

  /** Five words are needed; the day fields are read first, and the first bad field decides. */
  function ParseVerdict(text: string): ParseOutcome {
    var w := Words(TrimSpace(text));
    if |w| != 5 then WrongFieldCount(|w|)
    else if !FieldVerdict(w[2], 1, 31).Filled? then Failure(DayOfMonth, FieldVerdict(w[2], 1, 31))
    else if !FieldVerdict(w[4], 0, 6).Filled? then Failure(DayOfWeek, FieldVerdict(w[4], 0, 6))
    else if !FieldVerdict(w[0], 0, 59).Filled? then Failure(Minute, FieldVerdict(w[0], 0, 59))
    else if !FieldVerdict(w[1], 0, 23).Filled? then Failure(Hour, FieldVerdict(w[1], 0, 23))
    else if !FieldVerdict(w[3], 1, 12).Filled? then Failure(Month, FieldVerdict(w[3], 1, 12))
    else Parsed
  }

  predicate FieldAccepted(word: string, min: nat, max: nat) {
    forall p :: p in Split(word, ',') ==> ItemAccepted(p, min, max)
  }

  /** Parsing succeeds exactly on five words, each of which is a valid field. */
  lemma ParseAcceptsIff(text: string)
    ensures ParseVerdict(text).Parsed? <==>
      var w := Words(text);
      && |w| == 5
      && FieldAccepted(w[0], 0, 59) && FieldAccepted(w[1], 0, 23) && FieldAccepted(w[2], 1, 31)
      && FieldAccepted(w[3], 1, 12) && FieldAccepted(w[4], 0, 6)
  {
    WordsIgnoreTrim(text);
    var w := Words(text);
    if |w| == 5 {
      FieldAcceptedIff(w[0], 0, 59);
      FieldAcceptedIff(w[1], 0, 23);
      FieldAcceptedIff(w[2], 1, 31);
      FieldAcceptedIff(w[3], 1, 12);
      FieldAcceptedIff(w[4], 0, 6);
    }
  }

  /** The fields in the order in which they are read, each with its range. */
  function ReadingOrder(w: seq<string>): seq<(string, nat, nat)>
    requires |w| == 5
  {
    [(w[2], 1, 31), (w[4], 0, 6), (w[0], 0, 59), (w[1], 0, 23), (w[3], 1, 12)]
  }

  /** Parsing crashes exactly when some field does and the fields read before it are accepted. */
  lemma ParseCrashesIff(text: string)
    ensures ParseVerdict(text).ParserCrashed? <==>
      var w := Words(text);
      && |w| == 5
      && exists k :: 0 <= k < 5 && CrashesAt(ReadingOrder(w), k)
  {
    WordsIgnoreTrim(text);
    var w := Words(text);
    if |w| == 5 {
      var fields := ReadingOrder(w);
      forall k | 0 <= k < 5
        ensures FieldVerdict(fields[k].0, fields[k].1, fields[k].2).Filled? <==> FieldAccepted(fields[k].0, fields[k].1, fields[k].2)
        ensures FieldVerdict(fields[k].0, fields[k].1, fields[k].2).Crashed? <==> FieldCrashes(fields[k].0, fields[k].1, fields[k].2)
      {
        FieldAcceptedIff(fields[k].0, fields[k].1, fields[k].2);
        PartsCrashIff(Split(fields[k].0, ','), fields[k].0 == "*", fields[k].1, fields[k].2);
      }
      FirstFailureDecides(text, w);
    }
  }

  const READING_NAMES: seq<FieldName> := [DayOfMonth, DayOfWeek, Minute, Hour, Month]

  /** The fields before the k-th in reading order are accepted, and it is not, for one of its items. */
  ghost predicate RejectedAt(fields: seq<(string, nat, nat)>, k: int, error: ItemError) {
    && 0 <= k < |fields|
    && (exists i :: RefusedAt(Split(fields[k].0, ','), i, error, fields[k].1, fields[k].2))
    && forall j :: 0 <= j < k ==> FieldAccepted(fields[j].0, fields[j].1, fields[j].2)
  }

  /** A wrong number of fields is reported with the number; otherwise the first bad field is named, with the
      reason its first bad item gives. */
  lemma ParseBlames(text: string, k: nat, error: ItemError)
    ensures ParseVerdict(text).WrongFieldCount? <==> |Words(text)| != 5
    ensures |Words(text)| != 5 ==> ParseVerdict(text) == WrongFieldCount(|Words(text)|)
    ensures |Words(text)| == 5 && RejectedAt(ReadingOrder(Words(text)), k, error) ==>
      ParseVerdict(text) == BadField(READING_NAMES[k], error)
  {
    WordsIgnoreTrim(text);
    var w := Words(text);
    if |w| == 5 && RejectedAt(ReadingOrder(w), k, error) {
      var fields := ReadingOrder(w);
      forall j | 0 <= j < k
        ensures FieldVerdict(fields[j].0, fields[j].1, fields[j].2).Filled?
      {
        FieldAcceptedIff(fields[j].0, fields[j].1, fields[j].2);
      }
      PartsRejectIff(Split(fields[k].0, ','), fields[k].0 == "*", fields[k].1, fields[k].2, error);
      FirstRejectedDecides(text, w, k, error);
    }
  }

  lemma FirstRejectedDecides(text: string, w: seq<string>, k: nat, error: ItemError)
    requires |w| == 5 && w == Words(TrimSpace(text)) && k < 5
    requires var fields := ReadingOrder(w);
      && (forall j :: 0 <= j < k ==> FieldVerdict(fields[j].0, fields[j].1, fields[j].2).Filled?)
      && FieldVerdict(fields[k].0, fields[k].1, fields[k].2) == Rejected(error)
    ensures ParseVerdict(text) == BadField(READING_NAMES[k], error)
  {
    hide FieldVerdict, Words, TrimSpace;
    var fields := ReadingOrder(w);
    assert READING_NAMES[0] == DayOfMonth && READING_NAMES[1] == DayOfWeek && READING_NAMES[2] == Minute
      && READING_NAMES[3] == Hour && READING_NAMES[4] == Month;
    assert k == 0 || k == 1 || k == 2 || k == 3 || k == 4;
    assert k > 0 ==> FieldVerdict(fields[0].0, fields[0].1, fields[0].2).Filled?;
    assert k > 1 ==> FieldVerdict(fields[1].0, fields[1].1, fields[1].2).Filled?;
    assert k > 2 ==> FieldVerdict(fields[2].0, fields[2].1, fields[2].2).Filled?;
    assert k > 3 ==> FieldVerdict(fields[3].0, fields[3].1, fields[3].2).Filled?;
  }

  ghost predicate CrashesAt(fields: seq<(string, nat, nat)>, k: int) {
    && 0 <= k < |fields|
    && FieldCrashes(fields[k].0, fields[k].1, fields[k].2)
    && forall j :: 0 <= j < k ==> FieldAccepted(fields[j].0, fields[j].1, fields[j].2)
  }

  lemma FirstFailureDecides(text: string, w: seq<string>)
    requires |w| == 5 && w == Words(TrimSpace(text))
    requires forall f :: f in ReadingOrder(w) ==>
      (FieldVerdict(f.0, f.1, f.2).Filled? <==> FieldAccepted(f.0, f.1, f.2))
      && (FieldVerdict(f.0, f.1, f.2).Crashed? <==> FieldCrashes(f.0, f.1, f.2))
    ensures ParseVerdict(text).ParserCrashed? <==> exists k :: 0 <= k < 5 && CrashesAt(ReadingOrder(w), k)
  {
    hide FieldVerdict, FieldAccepted, FieldCrashes, Words, TrimSpace;
    var fields := ReadingOrder(w);
    assert fields[0] in fields && fields[1] in fields && fields[2] in fields && fields[3] in fields && fields[4] in fields;
    if ParseVerdict(text).ParserCrashed? {
      var k := if !FieldVerdict(w[2], 1, 31).Filled? then 0 else if !FieldVerdict(w[4], 0, 6).Filled? then 1
        else if !FieldVerdict(w[0], 0, 59).Filled? then 2 else if !FieldVerdict(w[1], 0, 23).Filled? then 3 else 4;
      assert CrashesAt(fields, k);
    }
    if k :| 0 <= k < 5 && CrashesAt(fields, k) {
      assert k == 0 || k == 1 || k == 2 || k == 3 || k == 4;
    }
  }

  ghost predicate BitsAre(bits: seq<bool>, word: string, min: nat, max: nat) {
    forall v :: 0 <= v < |bits| ==> (bits[v] <==> Denotes(word, v, min, max))
  }

  /** The schedule the five fields of `text` describe. */
  ghost predicate Describes(text: string, s: Schedule) {
    var w := Words(text);
    && ParseVerdict(text).Parsed?
    && |w| == 5
    && WellSized(s)
    && BitsAre(s.minute, w[0], 0, 59)
    && BitsAre(s.hour, w[1], 0, 23)
    && BitsAre(s.dom, w[2], 1, 31)
    && BitsAre(s.month, w[3], 1, 12)
    && BitsAre(s.dow, w[4], 0, 6)
    && (s.domStar <==> w[2] == "*")
    && (s.dowStar <==> w[4] == "*")
  }

  lemma AcceptedFieldHasBit(bits: seq<bool>, word: string, min: nat, max: nat)
    requires FieldAccepted(word, min, max) && BitsAre(bits, word, min, max) && max < |bits|
    ensures AnyBit(bits, min, max)
  {
    FieldAcceptedIff(word, min, max);
    var v := AcceptedDenotesSomething(word, min, max);
    assert bits[v];
  }

  lemma DescribedIsInhabited(text: string, s: Schedule)
    requires Describes(text, s)
    ensures Inhabited(s)
  {
    ParseAcceptsIff(text);
    var w := Words(text);
    AcceptedFieldHasBit(s.minute, w[0], 0, 59);
    AcceptedFieldHasBit(s.hour, w[1], 0, 23);
    AcceptedFieldHasBit(s.dom, w[2], 1, 31);
    AcceptedFieldHasBit(s.month, w[3], 1, 12);
    AcceptedFieldHasBit(s.dow, w[4], 0, 6);
  }

  const NS_PER_MINUTE := 60_000_000_000

  /** The first whole minute strictly after an instant given in nanoseconds. */
  function FirstMinuteAfter(afterNs: int): (t: int)
    ensures (t - 1) * NS_PER_MINUTE <= afterNs < t * NS_PER_MINUTE
  {
    afterNs / NS_PER_MINUTE + 1
  }

  /** `t` is the first match from `start` on, or there is none in the scanned window. */
  ghost predicate IsNext(s: Schedule, start: int, r: Option<int>)
    requires WellSized(s)
  {
    var limit := start + MAX_SCAN_DAYS * MINUTES_PER_DAY;
    match r
    case Some(t) => start <= t < limit && Matches(s, t) && NoMatch(s, start, t)
    case None => NoMatch(s, start, limit)
  }

  /** On a parsed expression the search fails exactly when no date ever fits it. */
  lemma NextFailsIffDateless(s: Schedule, start: int, r: Option<int>)
    requires Inhabited(s) && IsNext(s, start, r)
    ensures r == None <==> !HasDate(s)
  {
    WindowEmptyIffDateless(s, start);
  }

  ghost function Fires(s: Schedule): int -> bool
    requires WellSized(s)
  {
    t => WellSized(s) && Matches(s, t)
  }

  ghost predicate Quiet(fires: int -> bool, from: int, to: int) {
    forall t :: from <= t < to ==> !fires(t)
  }

  /** Where the search after the entries of `out` begins. */
  function SearchedFrom(start: int, out: seq<int>): int {
    if out == [] then start else out[|out| - 1] + 1
  }

  /** `out` lists firings in order, each the first one after the one before. */
  ghost predicate Consecutive(fires: int -> bool, start: int, out: seq<int>)
    decreases |out|
  {
    out != [] ==>
      var front, last := out[..|out| - 1], out[|out| - 1];
      && Consecutive(fires, start, front)
      && SearchedFrom(start, front) <= last
      && fires(last)
      && Quiet(fires, SearchedFrom(start, front), last)
  }

  lemma ConsecutiveStarts(s: Schedule, start: int)
    requires WellSized(s)
    ensures Consecutive(Fires(s), start, []) && SearchedFrom(start, []) == start
  {
  }

  /** A list grows by the first match after its last entry. */
  lemma ConsecutiveGrows(s: Schedule, start: int, out: seq<int>, t: int)
    requires WellSized(s) && Consecutive(Fires(s), start, out) && IsNext(s, SearchedFrom(start, out), Some(t))
    ensures Consecutive(Fires(s), start, out + [t]) && SearchedFrom(start, out + [t]) == t + 1
  {
    assert (out + [t])[..|out|] == out;
  }

  lemma NextIsOrIsNot(s: Schedule, start: int, t: int)
    requires WellSized(s) && IsNext(s, start, Some(t))
    ensures !IsNext(s, start, None)
  {
  }

  /** Up to its last entry such a list holds every firing and nothing else. */
  lemma {:induction false} ConsecutiveMissesNone(fires: int -> bool, start: int, out: seq<int>)
    requires Consecutive(fires, start, out)
    ensures start <= SearchedFrom(start, out)
    ensures forall t :: t in out <==> start <= t < SearchedFrom(start, out) && fires(t)
    decreases |out|
  {
    if out != [] {
      var front, last := out[..|out| - 1], out[|out| - 1];
      ConsecutiveMissesNone(fires, start, front);
      assert out == front + [last];
    }
  }

  lemma MinuteAfterWholeMinute(t: int)
    ensures FirstMinuteAfter(t * NS_PER_MINUTE) == t + 1
  {
  }

  ghost predicate Clear(bits: array<bool>)
    reads bits
  {
    forall v :: 0 <= v < bits.Length ==> !bits[v]
  }

  method FillClear(bits: array<bool>, word: string, min: nat, max: nat) returns (out: FieldOutcome)
    requires min <= max < bits.Length && 2 * max <= MAX_INT64 && Clear(bits)
    modifies bits
    ensures out == FieldVerdict(word, min, max)
    ensures out.Filled? ==> BitsAre(bits[..], word, min, max) && (out.star <==> word == "*")
  {
    out := Fill(bits, word, min, max);
    FieldAcceptedIff(word, min, max);
  }

  class Expr {
    const raw: string
    const minute: array<bool>
    const hour: array<bool>
    const dom: array<bool>
    const month: array<bool>
    const dow: array<bool>
    var domStar: bool
    var dowStar: bool

    ghost predicate Valid()
    {
      && minute.Length == 60 && hour.Length == 24 && dom.Length == 32 && month.Length == 13 && dow.Length == 7
      && minute != hour && minute != dom && minute != month && minute != dow
      && hour != dom && hour != month && hour != dow && dom != month && dom != dow && month != dow
    }

    function View(): Schedule
      reads this, minute, hour, dom, month, dow
    {
      Schedule(minute[..], hour[..], dom[..], month[..], dow[..], domStar, dowStar)
    }

    /** An expression with empty bitsets. */
    constructor (text: string)
      ensures Valid() && raw == text
      ensures fresh(minute) && fresh(hour) && fresh(dom) && fresh(month) && fresh(dow)
      ensures Clear(minute) && Clear(hour) && Clear(dom) && Clear(month) && Clear(dow)
    {
      raw := text;
      minute := new bool[60](_ => false);
      hour := new bool[24](_ => false);
      dom := new bool[32](_ => false);
      month := new bool[13](_ => false);
      dow := new bool[7](_ => false);
      domStar, dowStar := false, false;
    }

    /** Parses `text`; on success the expression holds exactly the schedule it describes. */
    static method Parse(text: string) returns (outcome: ParseOutcome, e: Expr?)
      ensures outcome == ParseVerdict(text)
      ensures outcome.Parsed? <==> e != null
      ensures e != null ==> fresh(e) && e.Valid() && e.raw == text && Describes(text, e.View())
    {
      e := null;
      WordsIgnoreTrim(text);
      var w := Words(TrimSpace(text));
      if |w| != 5 {
        return WrongFieldCount(|w|), null;
      }
      var x := new Expr(text);
      var day := FillClear(x.dom, w[2], 1, 31);
      if !day.Filled? {
        return Failure(DayOfMonth, day), null;
      }
      x.domStar := day.star;
      day := FillClear(x.dow, w[4], 0, 6);
      if !day.Filled? {
        return Failure(DayOfWeek, day), null;
      }
      x.dowStar := day.star;
      var f := FillClear(x.minute, w[0], 0, 59);
      if !f.Filled? {
        return Failure(Minute, f), null;
      }
      f := FillClear(x.hour, w[1], 0, 23);
      if !f.Filled? {
        return Failure(Hour, f), null;
      }
      f := FillClear(x.month, w[3], 1, 12);
      if !f.Filled? {
        return Failure(Month, f), null;
      }
      return Parsed, x;
    }

    /** The skipping search: it returns the same minute a minute-by-minute scan would. */
    method Next(afterNs: int) returns (r: Option<int>)
      requires Valid()
      ensures IsNext(View(), FirstMinuteAfter(afterNs), r)
    {
      hide Matches, NoMatch, DayMatches, MonthJump, DayJump, HourJump, DayNumber, IsLeap;
      ghost var s := View();
      var t := FirstMinuteAfter(afterNs);
      ghost var start := t;
      NoMatchInNothing(s, start);
      var limit := t + MAX_SCAN_DAYS * MINUTES_PER_DAY;
      while t < limit
        invariant start <= t && NoMatch(s, start, t)
        decreases limit - t
      {
        var n := t / MINUTES_PER_DAY;
        if !month[DateOf(n).month] {
          MonthJumpSkipsNothing(s, t);
          NoMatchExtends(s, start, t, MonthJump(t));
          t := MonthJump(t);
        } else if !DayMatches(View(), n) {
          DayJumpSkipsNothing(s, t);
          NoMatchExtends(s, start, t, DayJump(t));
          t := DayJump(t);
        } else if !hour[t % MINUTES_PER_DAY / 60] {
          HourJumpSkipsNothing(s, t);
          NoMatchExtends(s, start, t, HourJump(t));
          t := HourJump(t);
        } else if !minute[t % 60] {
          MinuteStepSkipsNothing(s, t);
          NoMatchExtends(s, start, t, t + 1);
          t := t + 1;
        } else {
          FieldsMatch(s, t);
          return Some(t);
        }
      }
      NoMatchBefore(s, start, limit, t);
      return None;
    }

    /** Up to `count` consecutive firings. There is an error only if there is not even the first,
        and a short list only if the search after its last entry finds nothing. */
    method NextN(afterNs: int, count: nat) returns (r: Option<seq<int>>)
      requires Valid()
      ensures r == None <==> count > 0 && IsNext(View(), FirstMinuteAfter(afterNs), None)
      ensures r.Some? ==> |r.value| <= count && Consecutive(Fires(View()), FirstMinuteAfter(afterNs), r.value)
      ensures r.Some? && |r.value| < count ==> IsNext(View(), SearchedFrom(FirstMinuteAfter(afterNs), r.value), None)
      ensures Inhabited(View()) && HasDate(View()) ==> r.Some? && |r.value| == count
    {
      hide Matches, HasDate, AnyBit, IsNext, Consecutive, SearchedFrom;
      ghost var s, start := View(), FirstMinuteAfter(afterNs);
      ConsecutiveStarts(s, start);
      var out: seq<int> := [];
      var t := afterNs;
      while |out| < count
        invariant |out| <= count && Consecutive(Fires(s), start, out)
        invariant FirstMinuteAfter(t) == SearchedFrom(start, out)
        invariant out != [] ==> IsNext(s, start, Some(out[0]))
        decreases count - |out|
      {
        var next := Next(t);
        if Inhabited(s) {
          NextFailsIffDateless(s, FirstMinuteAfter(t), next);
        }
        if next == None {
          if |out| > 0 {
            NextIsOrIsNot(s, start, out[0]);
            return Some(out);
          }
          return None;
        }
        ConsecutiveGrows(s, start, out, next.value);
        out := out + [next.value];
        t := next.value * NS_PER_MINUTE;
        MinuteAfterWholeMinute(next.value);
      }
      if |out| > 0 {
        NextIsOrIsNot(s, start, out[0]);
      }
      return Some(out);
    }
  }
}
