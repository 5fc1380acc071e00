/** The documented syntax of cron expressions, written out and read back: every documented form
    parses, and sets exactly the bits its description promises. */
module CronGrammar {
  import opened Text
  import opened CronSchedule
  import opened CronFields
  import opened CronExpr

  /** The forms listed in the package documentation. */
  datatype Form =
    | Every
    | EveryNth(n: nat)
    | One(value: nat)
    | Range(first: nat, last: nat)
    | RangeNth(first: nat, last: nat, n: nat)

  function Written(f: Form): string {
    match f
    case Every => "*"
    case EveryNth(n) => "*/" + NatToString(n)
    case One(v) => NatToString(v)
    case Range(a, b) => NatToString(a) + "-" + NatToString(b)
    case RangeNth(a, b, n) => NatToString(a) + "-" + NatToString(b) + "/" + NatToString(n)
  }

  /** The values a form stands for in a field ranging over `min`..`max`. */
  ghost predicate Means(f: Form, v: int, min: nat, max: nat) {
    match f
    case Every => min <= v <= max
    case EveryNth(n) => v <= max && exists k :: v == Nth(min, n, k)
    case One(a) => v == a
    case Range(a, b) => a <= v <= b
    case RangeNth(a, b, n) => v <= b && exists k :: v == Nth(a, n, k)
  }

  predicate Legal(f: Form, min: nat, max: nat) {
    match f
    case Every => true
    case EveryNth(n) => 1 <= n <= MAX_INT64 - max
    case One(a) => min <= a <= max
    case Range(a, b) => min <= a <= b <= max
    case RangeNth(a, b, n) => min <= a <= b <= max && 1 <= n <= MAX_INT64 - max
  }

  // ---- one item ----

  predicate FieldChar(c: char) {
    IsDigit(c) || c == '*' || c == '-' || c == '/'
  }

  predicate FieldWord(p: string) {
    p != "" && forall c :: c in p ==> FieldChar(c)
  }

  lemma WrittenChars(f: Form)
    ensures FieldWord(Written(f)) && ',' !in Written(f)
  {
  }

  lemma NumberHasNo(n: nat, c: char)
    requires !IsDigit(c)
    ensures c !in NatToString(n)
  {
  }

  lemma NumberReadsBack(n: nat)
    requires n <= MAX_INT64
    ensures Atoi(NatToString(n)) == Some(n)
    ensures NatToString(n) != "*"
  {
    AtoiOfItoa(n);
    assert IsDigit(NatToString(n)[0]);
  }

  lemma NumberBaseReadsBack(a: nat, step: int, min: nat, max: nat)
    requires a <= max <= MAX_INT64
    ensures ReadBase(NatToString(a), step, min, max) == Bounded(a, a, step, min, max)
  {
    NumberReadsBack(a);
    NumberHasNo(a, '-');
    assert IndexOf(NatToString(a), '-') == None;
  }

  lemma RangeBaseReadsBack(a: nat, b: nat, step: int, min: nat, max: nat)
    requires a <= b <= max <= MAX_INT64
    ensures ReadBase(NatToString(a) + "-" + NatToString(b), step, min, max) == Bounded(a, b, step, min, max)
  {
    hide NatToString, Atoi, IndexOf, Bounded;
    var s, t := NatToString(a), NatToString(b);
    NumberReadsBack(a);
    NumberReadsBack(b);
    NumberHasNo(a, '-');
    IndexOfFirst(s, t, '-');
    var base := s + ['-'] + t;
    assert base[..|s|] == s && base[|s| + 1..] == t;
    assert base[|s|] == '-' && base != "*" && base == s + "-" + t;
  }

  lemma SteppedReadsBack(base: string, n: nat, min: nat, max: nat)
    requires '/' !in base && 1 <= n <= MAX_INT64
    ensures ReadItem(base + "/" + NatToString(n), min, max) == ReadBase(base, n, min, max)
  {
    NumberReadsBack(n);
    IndexOfFirst(base, NatToString(n), '/');
    var part := base + ['/'] + NatToString(n);
    assert part[..|base|] == base && part[|base| + 1..] == NatToString(n);
  }

  lemma PlainReadsBack(base: string, min: nat, max: nat)
    requires '/' !in base && base != ""
    ensures ReadItem(base, min, max) == ReadBase(base, 1, min, max)
  {
    assert IndexOf(base, '/') == None;
  }

  function ItemOf(f: Form, min: nat, max: nat): Item {
    match f
    case Every => Span(min, max, 1)
    case EveryNth(n) => Span(min, max, n)
    case One(a) => Span(a, a, 1)
    case Range(a, b) => Span(a, b, 1)
    case RangeNth(a, b, n) => Span(a, b, n)
  }

  lemma FormReadsBack(f: Form, min: nat, max: nat)
    requires Legal(f, min, max) && min <= max && 2 * max < MAX_INT64
    ensures ReadItem(Written(f), min, max) == ItemOf(f, min, max)
  {
    match f
    case Every => PlainReadsBack("*", min, max);
    case EveryNth(n) =>
      assert "*/" + NatToString(n) == "*" + "/" + NatToString(n);
      SteppedReadsBack("*", n, min, max);
    case One(a) =>
      NumberHasNo(a, '/');
      PlainReadsBack(NatToString(a), min, max);
      NumberBaseReadsBack(a, 1, min, max);
    case Range(a, b) =>
      NumberHasNo(a, '/');
      NumberHasNo(b, '/');
      PlainReadsBack(NatToString(a) + "-" + NatToString(b), min, max);
      RangeBaseReadsBack(a, b, 1, min, max);
    case RangeNth(a, b, n) =>
      NumberHasNo(a, '/');
      NumberHasNo(b, '/');
      SteppedReadsBack(NatToString(a) + "-" + NatToString(b), n, min, max);
      RangeBaseReadsBack(a, b, n, min, max);
  }

  lemma UnitProgression(lo: int, hi: int, v: int)
    ensures v in Progression(lo, hi, 1) <==> lo <= v <= hi
  {
    ProgressionMembers(lo, hi, 1, v);
    if lo <= v <= hi {
      assert v == Nth(lo, 1, v - lo);
    }
  }

  /** A legal form is accepted and denotes exactly the values it means. */
  lemma FormDenotesMeaning(f: Form, v: int, min: nat, max: nat)
    requires Legal(f, min, max) && min <= max && 2 * max < MAX_INT64
    ensures ItemAccepted(Written(f), min, max)
    ensures ItemDenotes(Written(f), v, min, max) <==> Means(f, v, min, max)
  {
    FormReadsBack(f, min, max);
    var item := ItemOf(f, min, max);
    if item.step == 1 {
      UnitProgression(item.lo, item.hi, v);
    }
    ProgressionMembers(item.lo, item.hi, item.step, v);
  }

  lemma OneItemVerdict(part: string, star: bool, min: int, max: int)
    ensures PartsVerdict([part], star, min, max) ==
      match ReadItem(part, min, max)
      case Refused(error) => Rejected(error)
      case Span(_, _, _) => if StepWraps(ReadItem(part, min, max)) then Crashed else Filled(star)
  {
    hide ReadItem;
    assert [part][1..] == [];
  }

  lemma EveryNthReads(n: nat, min: nat, max: nat)
    requires 1 <= n <= MAX_INT64 && min <= max
    ensures ReadItem(Written(EveryNth(n)), min, max) == Span(min, max, n)
  {
    SteppedReadsBack("*", n, min, max);
    assert "*/" + NatToString(n) == "*" + "/" + NatToString(n);
    hide ReadItem, NatToString;
  }

  /** A starred step that fits a 64-bit integer is accepted exactly when adding it to the smallest
      value of the field still fits one; otherwise the parser crashes. */
  lemma StepCrashesIff(n: nat, min: nat, max: nat)
    requires 1 <= n <= MAX_INT64 && min <= max && 2 * max < MAX_INT64
    ensures FieldVerdict(Written(EveryNth(n)), min, max) == if min + n > MAX_INT64 then Crashed else Filled(false)
  {
    var field := Written(EveryNth(n));
    EveryNthReads(n, min, max);
    WrittenChars(EveryNth(n));
    SplitWhole(field, ',');
    FormStar(EveryNth(n));
    hide ReadItem, ReadBase, Written, NatToString, Split, PartsVerdict;
    assert field != "*" && Split(field, ',') == [field];
    OneItemVerdict(field, false, min, max);
  }

  // ---- a field ----

  function WrittenItems(fs: seq<Form>): (parts: seq<string>)
    ensures |parts| == |fs| && forall i :: 0 <= i < |fs| ==> parts[i] == Written(fs[i])
  {
    if fs == [] then [] else [Written(fs[0])] + WrittenItems(fs[1..])
  }

  function WrittenField(fs: seq<Form>): string
    requires |fs| >= 1
  {
    Join(WrittenItems(fs), ',')
  }

  predicate LegalField(fs: seq<Form>, min: nat, max: nat) {
    && |fs| >= 1 && min <= max && 2 * max < MAX_INT64
    && forall f :: f in fs ==> Legal(f, min, max)
  }

  ghost predicate FieldMeans(fs: seq<Form>, v: int, min: nat, max: nat) {
    exists f :: f in fs && Means(f, v, min, max)
  }

  lemma FieldSplitsBack(fs: seq<Form>)
    requires |fs| >= 1
    ensures Split(WrittenField(fs), ',') == WrittenItems(fs)
  {
    var parts := WrittenItems(fs);
    forall p | p in parts
      ensures ',' !in p
    {
      var i :| 0 <= i < |fs| && parts[i] == p;
      WrittenChars(fs[i]);
    }
    SplitJoin(parts, ',');
  }

  /** A written list is accepted, and its bits are the union of what its forms mean. */
  lemma FieldDenotesMeaning(fs: seq<Form>, min: nat, max: nat)
    requires LegalField(fs, min, max)
    ensures FieldAccepted(WrittenField(fs), min, max)
    ensures forall v :: Denotes(WrittenField(fs), v, min, max) <==> FieldMeans(fs, v, min, max)
  {
    FieldSplitsBack(fs);
    var parts := WrittenItems(fs);
    forall p | p in parts
      ensures ItemAccepted(p, min, max)
    {
      var i :| 0 <= i < |fs| && parts[i] == p;
      FormDenotesMeaning(fs[i], 0, min, max);
    }
    forall v
      ensures Denotes(WrittenField(fs), v, min, max) <==> FieldMeans(fs, v, min, max)
    {
      if p :| p in parts && ItemDenotes(p, v, min, max) {
        var i :| 0 <= i < |fs| && parts[i] == p;
        FormDenotesMeaning(fs[i], v, min, max);
      }
      if f :| f in fs && Means(f, v, min, max) {
        var i :| 0 <= i < |fs| && fs[i] == f;
        FormDenotesMeaning(f, v, min, max);
        assert parts[i] in parts;
      }
    }
  }

  lemma StarIffOnlyEvery(fs: seq<Form>)
    requires |fs| >= 1
    ensures WrittenField(fs) == "*" <==> fs == [Every]
  {
    FieldSplitsBack(fs);
    SplitWhole("*", ',');
    if WrittenField(fs) == "*" {
      assert WrittenItems(fs) == ["*"];
      assert |fs| == 1 && Written(fs[0]) == "*";
      FormStar(fs[0]);
    }
  }

  lemma FormStar(f: Form)
    ensures Written(f) == "*" <==> f == Every
  {
    if f.One? {
      assert IsDigit(NatToString(f.value)[0]);
    }
  }

  // ---- the whole expression ----

  datatype Layout = Layout(minute: seq<Form>, hour: seq<Form>, dom: seq<Form>, month: seq<Form>, dow: seq<Form>)

  predicate LegalLayout(l: Layout) {
    && LegalField(l.minute, 0, 59) && LegalField(l.hour, 0, 23) && LegalField(l.dom, 1, 31)
    && LegalField(l.month, 1, 12) && LegalField(l.dow, 0, 6)
  }

  function WrittenWords(l: Layout): seq<string>
    requires LegalLayout(l)
  {
    [WrittenField(l.minute), WrittenField(l.hour), WrittenField(l.dom), WrittenField(l.month), WrittenField(l.dow)]
  }

  function WrittenExpression(l: Layout): string
    requires LegalLayout(l)
  {
    Join(WrittenWords(l), ' ')
  }

  lemma {:induction false} JoinedIsWord(parts: seq<string>)
    requires |parts| >= 1
    requires forall p :: p in parts ==> FieldWord(p)
    ensures IsWord(Join(parts, ','))
  {
    assert parts[0] in parts;
    if |parts| > 1 {
      JoinedIsWord(parts[1..]);
    }
  }

  lemma FieldIsWord(fs: seq<Form>)
    requires |fs| >= 1
    ensures IsWord(WrittenField(fs))
  {
    forall p | p in WrittenItems(fs)
      ensures FieldWord(p)
    {
      var i :| 0 <= i < |fs| && WrittenItems(fs)[i] == p;
      WrittenChars(fs[i]);
    }
    JoinedIsWord(WrittenItems(fs));
  }

  lemma WordsReadBack(l: Layout)
    requires LegalLayout(l)
    ensures Words(WrittenExpression(l)) == WrittenWords(l)
  {
    FieldIsWord(l.minute);
    FieldIsWord(l.hour);
    FieldIsWord(l.dom);
    FieldIsWord(l.month);
    FieldIsWord(l.dow);
    WordsOfJoin(WrittenWords(l));
  }

  ghost predicate BitsMean(bits: seq<bool>, fs: seq<Form>, min: nat, max: nat) {
    forall v :: 0 <= v < |bits| ==> (bits[v] <==> FieldMeans(fs, v, min, max))
  }

  /** What the forms of a layout mean as a schedule. */
  ghost predicate LayoutMeans(l: Layout, s: Schedule) {
    && WellSized(s)
    && BitsMean(s.minute, l.minute, 0, 59) && BitsMean(s.hour, l.hour, 0, 23)
    && BitsMean(s.dom, l.dom, 1, 31) && BitsMean(s.month, l.month, 1, 12) && BitsMean(s.dow, l.dow, 0, 6)
    && (s.domStar <==> l.dom == [Every]) && (s.dowStar <==> l.dow == [Every])
  }

  lemma BitsMeanIff(bits: seq<bool>, fs: seq<Form>, min: nat, max: nat)
    requires LegalField(fs, min, max)
    ensures FieldAccepted(WrittenField(fs), min, max)
    ensures BitsAre(bits, WrittenField(fs), min, max) <==> BitsMean(bits, fs, min, max)
  {
    FieldDenotesMeaning(fs, min, max);
  }

  /** Writing any legal expression and parsing it back yields the schedule its forms mean. */
  lemma WrittenExpressionParses(l: Layout, s: Schedule)
    requires LegalLayout(l)
    ensures ParseVerdict(WrittenExpression(l)).Parsed?
    ensures Describes(WrittenExpression(l), s) <==> LayoutMeans(l, s)
  {
    WordsReadBack(l);
    BitsMeanIff(s.minute, l.minute, 0, 59);
    BitsMeanIff(s.hour, l.hour, 0, 23);
    BitsMeanIff(s.dom, l.dom, 1, 31);
    BitsMeanIff(s.month, l.month, 1, 12);
    BitsMeanIff(s.dow, l.dow, 0, 6);
    ParseAcceptsIff(WrittenExpression(l));
    StarIffOnlyEvery(l.dom);
    StarIffOnlyEvery(l.dow);
  }
}
