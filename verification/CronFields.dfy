/** How one field of a cron expression is read, and the grammar it accepts. */
module CronFields {
  import opened Text

  datatype ItemError = EmptyItem | BadStep | BadRange | BadValue | OutOfBounds

  /** One comma-separated item: every `step`-th value from `lo` to `hi`, or the reason it is refused. */
  datatype Item = Refused(error: ItemError) | Span(lo: int, hi: int, step: int)

  function Bounded(lo: int, hi: int, step: int, min: int, max: int): Item {
    if lo < min || hi > max || lo > hi then Refused(OutOfBounds) else Span(lo, hi, step)
  }

  function ReadBase(base: string, step: int, min: int, max: int): Item {
    if base == "*" then Bounded(min, max, step, min, max)
    else
      match IndexOf(base, '-')
      case Some(i) => (
        var a, b := Atoi(base[..i]), Atoi(base[i + 1..]);
        if a == None || b == None then Refused(BadRange) else Bounded(a.value, b.value, step, min, max))
      case None =>
        var a := Atoi(base);
        if a == None then Refused(BadValue) else Bounded(a.value, a.value, step, min, max)
  }

  function ReadItem(part: string, min: int, max: int): (item: Item)
    ensures item.Span? ==> min <= item.lo <= item.hi <= max && item.step >= 1
  {
    if part == "" then Refused(EmptyItem)
    else
      match IndexOf(part, '/')
      case None => ReadBase(part, 1, min, max)
      case Some(i) =>
        var n := Atoi(part[i + 1..]);
        if n == None || n.value < 1 then Refused(BadStep) else ReadBase(part[..i], n.value, min, max)
  }

  /** The values `lo`, `lo + step`, … up to `hi`. */
  function Progression(lo: int, hi: int, step: int): set<int>
    requires step >= 1
    decreases hi - lo
  {
    if lo > hi then {} else {lo} + Progression(lo + step, hi, step)
  }

  function Nth(lo: int, step: int, k: nat): int {
    lo + k * step
  }

  lemma {:induction false} ProgressionMembers(lo: int, hi: int, step: int, v: int)
    requires step >= 1
    ensures v in Progression(lo, hi, step) <==> v <= hi && exists k :: v == Nth(lo, step, k)
    decreases hi - lo
  {
    if lo <= hi {
      var next := lo + step;
      ProgressionMembers(next, hi, step, v);
      assert Nth(lo, step, 0) == lo;
      if k: nat :| v == Nth(next, step, k) {
        assert v == Nth(lo, step, k + 1);
      }
      if k: nat :| k > 0 && v == Nth(lo, step, k) {
        assert v == Nth(next, step, k - 1);
      }
    } else if k: nat :| v == Nth(lo, step, k) {
      NthNotBelow(lo, step, k);
    }
  }

  lemma NthNotBelow(lo: int, step: int, k: nat)
    requires step >= 1
    ensures Nth(lo, step, k) >= lo
  {
  }

  /** Go adds the step in 64-bit arithmetic. The sum that should end the loop wraps round to a
      negative index when it exceeds the largest integer. */
  predicate StepWraps(item: Item)
    requires item.Span?
  {
    item.lo + item.step > MAX_INT64
  }

  ghost predicate ItemDenotes(part: string, v: int, min: int, max: int) {
    var item := ReadItem(part, min, max);
    item.Span? && v in Progression(item.lo, item.hi, item.step)
  }

  ghost predicate PartsDenote(parts: seq<string>, v: int, min: int, max: int) {
    exists p :: p in parts && ItemDenotes(p, v, min, max)
  }

  /** Some item of the list names `v`. */
  ghost predicate Denotes(field: string, v: int, min: int, max: int) {
    PartsDenote(Split(field, ','), v, min, max)
  }

  datatype FieldOutcome = Filled(star: bool) | Rejected(error: ItemError) | Crashed

  /** The items are read from left to right and the first bad one decides. */
  function PartsVerdict(parts: seq<string>, star: bool, min: int, max: int): FieldOutcome {
    if parts == [] then Filled(star)
    else
      match ReadItem(parts[0], min, max)
      case Refused(error) => Rejected(error)
      case Span(_, _, _) =>
        if StepWraps(ReadItem(parts[0], min, max)) then Crashed
        else PartsVerdict(parts[1..], star, min, max)
  }

  function FieldVerdict(field: string, min: int, max: int): FieldOutcome {
    PartsVerdict(Split(field, ','), field == "*", min, max)
  }

  predicate ItemAccepted(part: string, min: int, max: int) {
    var item := ReadItem(part, min, max);
    item.Span? && !StepWraps(item)
  }

  /** A field is accepted exactly when each of its items is, and is starred exactly when it is `*`. */
  lemma FieldAcceptedIff(field: string, min: int, max: int)
    ensures FieldVerdict(field, min, max).Filled? <==>
      forall p :: p in Split(field, ',') ==> ItemAccepted(p, min, max)
    ensures FieldVerdict(field, min, max).Filled? ==> (FieldVerdict(field, min, max).star <==> field == "*")
  {
    PartsAcceptedIff(Split(field, ','), field == "*", min, max);
  }

  lemma {:induction false} PartsAcceptedIff(parts: seq<string>, star: bool, min: int, max: int)
    ensures PartsVerdict(parts, star, min, max) == Filled(star) <==>
      forall p :: p in parts ==> ItemAccepted(p, min, max)
    ensures PartsVerdict(parts, star, min, max).Filled? ==> PartsVerdict(parts, star, min, max).star == star
  {
    if parts != [] {
      PartsAcceptedIff(parts[1..], star, min, max);
      assert parts == [parts[0]] + parts[1..];
      assert parts[0] in parts;
    }
  }

  /** The item at `i` is well-formed with a step that wraps round, and the items before it are accepted. */
  ghost predicate WrapsAt(parts: seq<string>, i: int, min: int, max: int) {
    && 0 <= i < |parts|
    && ReadItem(parts[i], min, max).Span? && StepWraps(ReadItem(parts[i], min, max))
    && forall j :: 0 <= j < i ==> ItemAccepted(parts[j], min, max)
  }

  /** Reading crashes exactly when some item wraps round before any other is refused. */
  lemma {:induction false} PartsCrashIff(parts: seq<string>, star: bool, min: int, max: int)
    ensures PartsVerdict(parts, star, min, max).Crashed? <==> exists i :: WrapsAt(parts, i, min, max)
  {
    if parts != [] {
      var rest := parts[1..];
      PartsCrashIff(rest, star, min, max);
      if ItemAccepted(parts[0], min, max) {
        if i :| WrapsAt(rest, i, min, max) {
          assert WrapsAt(parts, i + 1, min, max);
        }
        if i :| WrapsAt(parts, i, min, max) {
          assert WrapsAt(rest, i - 1, min, max);
        }
      } else if ReadItem(parts[0], min, max).Span? {
        assert WrapsAt(parts, 0, min, max);
      }
    }
  }

  /** The item at `i` is refused, and the items before it are accepted. */
  ghost predicate RefusedAt(parts: seq<string>, i: int, error: ItemError, min: int, max: int) {
    && 0 <= i < |parts|
    && ReadItem(parts[i], min, max) == Refused(error)
    && forall j :: 0 <= j < i ==> ItemAccepted(parts[j], min, max)
  }

  /** A field is rejected for the first item that is not accepted, if that is refused, and for its reason. */
  lemma {:induction false} PartsRejectIff(parts: seq<string>, star: bool, min: int, max: int, error: ItemError)
    ensures PartsVerdict(parts, star, min, max) == Rejected(error) <==> exists i :: RefusedAt(parts, i, error, min, max)
  {
    if parts != [] {
      var rest := parts[1..];
      PartsRejectIff(rest, star, min, max, error);
      if ItemAccepted(parts[0], min, max) {
        if i :| RefusedAt(rest, i, error, min, max) {
          assert RefusedAt(parts, i + 1, error, min, max);
        }
        if i :| RefusedAt(parts, i, error, min, max) {
          assert RefusedAt(rest, i - 1, error, min, max);
        }
      } else if ReadItem(parts[0], min, max) == Refused(error) {
        assert RefusedAt(parts, 0, error, min, max);
      }
    }
  }

  /** The range of an item, or that it does not lie in the field's. */
  function Checked(lo: int, hi: int, step: int, min: int, max: int): Item {
    if min <= lo <= hi <= max then Span(lo, hi, step) else Refused(OutOfBounds)
  }

  /** How any item is read, by what it is made of. A slash is followed by a step, which has to be a positive
      number; before it, a star is the whole field, a dash stands between two numbers, and anything else
      has to be one number. The reason for refusing is the first of these that fails. */
  lemma ItemsAreRead(base: string, rest: string, step: int, min: int, max: int)
    requires '/' !in base
    ensures ReadItem("", min, max) == Refused(EmptyItem)
    ensures base != "" ==> ReadItem(base, min, max) == ReadBase(base, 1, min, max)
    ensures ReadItem(base + ['/'] + rest, min, max) ==
      match Atoi(rest)
      case None => Refused(BadStep)
      case Some(n) => if n >= 1 then ReadBase(base, n, min, max) else Refused(BadStep)
    ensures ReadBase("*", step, min, max) == Checked(min, max, step, min, max)
    ensures base != "*" && '-' !in base ==>
      ReadBase(base, step, min, max) ==
        if Atoi(base) == None then Refused(BadValue) else Checked(Atoi(base).value, Atoi(base).value, step, min, max)
    ensures '-' !in base ==>
      ReadBase(base + ['-'] + rest, step, min, max) ==
        if Atoi(base) == None || Atoi(rest) == None then Refused(BadRange)
        else Checked(Atoi(base).value, Atoi(rest).value, step, min, max)
  {
    hide Atoi;
    IndexOfFirst(base, rest, '/');
    var stepped := base + ['/'] + rest;
    assert stepped[..|base|] == base && stepped[|base| + 1..] == rest && stepped[|base|] == '/';
    if '-' !in base {
      IndexOfFirst(base, rest, '-');
      var range := base + ['-'] + rest;
      assert range[..|base|] == base && range[|base| + 1..] == rest && range[|base|] == '-';
    }
  }

  ghost predicate FieldCrashes(field: string, min: int, max: int) {
    exists i :: WrapsAt(Split(field, ','), i, min, max)
  }

  /** An accepted field admits at least one value. */
  lemma AcceptedDenotesSomething(field: string, min: int, max: int) returns (v: int)
    requires FieldVerdict(field, min, max).Filled?
    ensures min <= v <= max && Denotes(field, v, min, max)
  {
    FieldAcceptedIff(field, min, max);
    var part := Split(field, ',')[0];
    assert ItemAccepted(part, min, max);
    v := ReadItem(part, min, max).lo;
    assert ItemDenotes(part, v, min, max);
  }

  /** The loop of the parser over one field, writing the bitset in place. */
  method Fill(bits: array<bool>, field: string, min: nat, max: nat) returns (out: FieldOutcome)
    requires min <= max < bits.Length && 2 * max <= MAX_INT64
    modifies bits
    ensures out == FieldVerdict(field, min, max)
    ensures out.Filled? ==>
      forall v :: 0 <= v < bits.Length ==> (bits[v] <==> old(bits[v]) || Denotes(field, v, min, max))
  {
    var parts := Split(field, ',');
    var star := field == "*";
    var i := 0;
    while i < |parts|
      invariant 0 <= i <= |parts|
      invariant FieldVerdict(field, min, max) == PartsVerdict(parts[i..], star, min, max)
      invariant forall v :: 0 <= v < bits.Length ==>
        (bits[v] <==> old(bits[v]) || PartsDenote(parts[..i], v, min, max))
    {
      assert parts[i..][1..] == parts[i + 1..];
      var item := ReadItem(parts[i], min, max);
      if item.Refused? {
        return Rejected(item.error);
      }
      var wrapped := SetProgression(bits, item);
      if wrapped {
        return Crashed;
      }
      forall v | 0 <= v < bits.Length
        ensures PartsDenote(parts[..i + 1], v, min, max) <==>
          PartsDenote(parts[..i], v, min, max) || ItemDenotes(parts[i], v, min, max)
      {
        PartsDenoteNext(parts, i, v, min, max);
      }
      i := i + 1;
    }
    assert parts[..|parts|] == parts;
    return Filled(star);
  }

  /** The inner loop: sets every value of the item, unless the step wraps round. */
  method SetProgression(bits: array<bool>, item: Item) returns (wrapped: bool)
    requires item.Span? && 0 <= item.lo <= item.hi < bits.Length && item.step >= 1 && 2 * item.hi <= MAX_INT64
    modifies bits
    ensures wrapped == StepWraps(item)
    ensures !wrapped ==> forall x :: 0 <= x < bits.Length ==>
      (bits[x] <==> old(bits[x]) || x in Progression(item.lo, item.hi, item.step))
  {
    var v := item.lo;
    while v <= item.hi
      invariant v == item.lo || (item.lo + item.step <= v && !StepWraps(item))
      invariant forall x :: 0 <= x < bits.Length ==>
        (old(bits[x]) || x in Progression(item.lo, item.hi, item.step) <==>
         bits[x] || x in Progression(v, item.hi, item.step))
    {
      bits[v] := true;
      if v + item.step > MAX_INT64 {
        return true;
      }
      v := v + item.step;
    }
    return false;
  }

  lemma PartsDenoteNext(parts: seq<string>, i: nat, v: int, min: int, max: int)
    requires i < |parts|
    ensures PartsDenote(parts[..i + 1], v, min, max) <==>
      PartsDenote(parts[..i], v, min, max) || ItemDenotes(parts[i], v, min, max)
  {
    assert parts[..i + 1] == parts[..i] + [parts[i]];
    assert parts[i] in parts[..i + 1];
  }
}
