/** What a comparison of pipeline versions says about stages and tasks, in terms of their own fields. */
module SnapshotChanges {
  import opened Text
  import opened Ordering
  import opened Listings
  import opened SnapshotDiffs

  ghost predicate StageNamed(stages: seq<Stage>, name: string, s: Stage) {
    s in stages && s.name == name
  }

  ghost predicate HasStage(stages: seq<Stage>, name: string) {
    exists s :: StageNamed(stages, name, s)
  }

  ghost predicate TaskNamed(stages: seq<Stage>, key: TaskKey, t: Task) {
    exists s :: StageNamed(stages, key.0, s) && t in s.tasks && t.name == key.1
  }

  ghost predicate HasTask(stages: seq<Stage>, key: TaskKey) {
    exists t :: TaskNamed(stages, key, t)
  }

  // ---- field by field ----

  /** The change reported for one field: none if both sides show the same. */
  function Changed(name: string, from: string, to: string): seq<FieldChange> {
    if from == to then [] else [FieldChange(name, from, to)]
  }

  function StageChanges(a: Stage, b: Stage): seq<FieldChange> {
    Changed("sequence", Itoa(a.sequence), Itoa(b.sequence)) + Changed("executionMode", a.executionMode, b.executionMode)
  }

  function PlainChanges(a: Task, b: Task): seq<FieldChange> {
    Changed("type", a.kind, b.kind)
    + Changed("displayOrder", Itoa(a.displayOrder), Itoa(b.displayOrder))
    + Changed("image", a.image, b.image)
    + Changed("scriptPath", a.scriptPath, b.scriptPath)
    + Changed("timeoutSeconds", Itoa(a.timeoutSeconds), Itoa(b.timeoutSeconds))
  }

  function ContractChanges(a: Task, b: Task, canonical: string -> string): seq<FieldChange> {
    Changed("scriptArgs", canonical(a.scriptArgs), canonical(b.scriptArgs))
    + Changed("command", canonical(a.command), canonical(b.command))
    + Changed("args", canonical(a.args), canonical(b.args))
    + Changed("produces", canonical(a.produces), canonical(b.produces))
    + Changed("consumes", canonical(a.consumes), canonical(b.consumes))
  }

  function PolicyChanges(a: Task, b: Task, canonical: string -> string): seq<FieldChange> {
    Changed("retryPolicy", canonical(a.retryPolicy), canonical(b.retryPolicy))
    + Changed("releaseConfig", canonical(a.releaseConfig), canonical(b.releaseConfig))
    + Changed("rolloutConfig", canonical(a.rolloutConfig), canonical(b.rolloutConfig))
    + Changed("approvalConfig", canonical(a.approvalConfig), canonical(b.approvalConfig))
  }

  function TaskChanges(a: Task, b: Task, canonical: string -> string): seq<FieldChange> {
    PlainChanges(a, b) + ContractChanges(a, b, canonical) + PolicyChanges(a, b, canonical)
  }

  /** Nothing that is compared differs: position and mode of a stage. */
  predicate SameStage(a: Stage, b: Stage) {
    a.sequence == b.sequence && a.executionMode == b.executionMode
  }

  /** Nothing that is compared differs: the plain fields of a task, and the meaning of its JSON columns. */
  predicate SameTask(a: Task, b: Task, canonical: string -> string) {
    && a.kind == b.kind && a.displayOrder == b.displayOrder && a.image == b.image
    && a.scriptPath == b.scriptPath && a.timeoutSeconds == b.timeoutSeconds
    && canonical(a.scriptArgs) == canonical(b.scriptArgs)
    && canonical(a.command) == canonical(b.command)
    && canonical(a.args) == canonical(b.args)
    && canonical(a.produces) == canonical(b.produces)
    && canonical(a.consumes) == canonical(b.consumes)
    && canonical(a.retryPolicy) == canonical(b.retryPolicy)
    && canonical(a.releaseConfig) == canonical(b.releaseConfig)
    && canonical(a.rolloutConfig) == canonical(b.rolloutConfig)
    && canonical(a.approvalConfig) == canonical(b.approvalConfig)
  }

  lemma ChangesAppend(a: seq<Field>, b: seq<Field>, x: Field, y: Field)
    requires |a| == |b| && x.name == y.name
    ensures FieldChanges(a + [x], b + [y]) == FieldChanges(a, b) + Changed(x.name, x.shown, y.shown)
  {
    assert (a + [x])[..|a|] == a && (b + [y])[..|b|] == b;
  }

  /** All the changes between fields of the same names, one after the other. */
  function ChangesOf(a: seq<Field>, b: seq<Field>, n: nat): seq<FieldChange>
    requires n <= |a| && n <= |b|
  {
    if n == 0 then [] else ChangesOf(a, b, n - 1) + Changed(a[n - 1].name, a[n - 1].shown, b[n - 1].shown)
  }

  lemma {:induction false} FieldChangesAreThose(a: seq<Field>, b: seq<Field>, n: nat)
    requires SameNames(a, b) && n <= |a|
    ensures FieldChanges(a[..n], b[..n]) == ChangesOf(a, b, n)
  {
    if n > 0 {
      FieldChangesAreThose(a, b, n - 1);
      assert a[..n] == a[..n - 1] + [a[n - 1]] && b[..n] == b[..n - 1] + [b[n - 1]];
      ChangesAppend(a[..n - 1], b[..n - 1], a[n - 1], b[n - 1]);
    }
  }

  lemma Peel(a: seq<Field>, b: seq<Field>, n: nat)
    requires 0 < n <= |a| == |b|
    ensures ChangesOf(a, b, n) == ChangesOf(a, b, n - 1) + Changed(a[n - 1].name, a[n - 1].shown, b[n - 1].shown)
    ensures ChangesOf(a, b, 0) == []
  {
  }

  lemma SameNumber(a: int, b: int)
    ensures Itoa(a) == Itoa(b) <==> a == b
  {
    if Itoa(a) == Itoa(b) {
      ItoaInjective(a, b);
    }
  }

  lemma StageFieldChanges(a: Stage, b: Stage)
    ensures FieldChanges(StageFields(a), StageFields(b)) == StageChanges(a, b)
    ensures StageChanges(a, b) == [] <==> SameStage(a, b)
  {
    hide Itoa, FieldChanges, ChangesOf;
    var fs, gs := StageFields(a), StageFields(b);
    FieldChangesAreThose(fs, gs, 2);
    assert fs[..2] == fs && gs[..2] == gs;
    Peel(fs, gs, 1);
    Peel(fs, gs, 2);
    SameNumber(a.sequence, b.sequence);
  }

  lemma {:induction false} ChangesConcat(a: seq<Field>, b: seq<Field>, c: seq<Field>, d: seq<Field>)
    requires SameNames(a, b) && SameNames(c, d)
    ensures FieldChanges(a + c, b + d) == FieldChanges(a, b) + FieldChanges(c, d)
    decreases |c|
  {
    if c == [] {
      assert a + c == a && b + d == b;
    } else {
      var m := |c| - 1;
      assert a + c == (a + c[..m]) + [c[m]] && b + d == (b + d[..m]) + [d[m]];
      assert c == c[..m] + [c[m]] && d == d[..m] + [d[m]];
      ChangesConcat(a, b, c[..m], d[..m]);
      ChangesAppend(a + c[..m], b + d[..m], c[m], d[m]);
      ChangesAppend(c[..m], d[..m], c[m], d[m]);
    }
  }

  lemma FourChanges(a: seq<Field>, b: seq<Field>)
    requires SameNames(a, b) && |a| == 4
    ensures FieldChanges(a, b) == Changed(a[0].name, a[0].shown, b[0].shown) + Changed(a[1].name, a[1].shown, b[1].shown)
      + Changed(a[2].name, a[2].shown, b[2].shown) + Changed(a[3].name, a[3].shown, b[3].shown)
  {
    hide FieldChanges, ChangesOf, Changed;
    FieldChangesAreThose(a, b, 4);
    assert a[..4] == a && b[..4] == b;
    Peel(a, b, 1);
    Peel(a, b, 2);
    Peel(a, b, 3);
    Peel(a, b, 4);
  }

  lemma FiveChanges(a: seq<Field>, b: seq<Field>)
    requires SameNames(a, b) && |a| == 5
    ensures FieldChanges(a, b) == Changed(a[0].name, a[0].shown, b[0].shown) + Changed(a[1].name, a[1].shown, b[1].shown)
      + Changed(a[2].name, a[2].shown, b[2].shown) + Changed(a[3].name, a[3].shown, b[3].shown)
      + Changed(a[4].name, a[4].shown, b[4].shown)
  {
    hide FieldChanges, Changed;
    FourChanges(a[..4], b[..4]);
    assert a == a[..4] + [a[4]] && b == b[..4] + [b[4]];
    ChangesAppend(a[..4], b[..4], a[4], b[4]);
  }

  lemma TaskFieldChanges(a: Task, b: Task, canonical: string -> string)
    ensures FieldChanges(TaskFields(a, canonical), TaskFields(b, canonical)) == TaskChanges(a, b, canonical)
  {
    hide Itoa, FieldChanges, Changed;
    var fs, gs := TaskFields(a, canonical), TaskFields(b, canonical);
    TaskFieldsSameNames(a, b, canonical);
    FiveChanges(fs[..5], gs[..5]);
    FiveChanges(fs[5..10], gs[5..10]);
    FourChanges(fs[10..], gs[10..]);
    assert fs[..10] == fs[..5] + fs[5..10] && gs[..10] == gs[..5] + gs[5..10];
    assert fs == fs[..10] + fs[10..] && gs == gs[..10] + gs[10..];
    ChangesConcat(fs[..5], gs[..5], fs[5..10], gs[5..10]);
    ChangesConcat(fs[..10], gs[..10], fs[10..], gs[10..]);
  }

  lemma NoTaskChanges(a: Task, b: Task, canonical: string -> string)
    ensures TaskChanges(a, b, canonical) == [] <==> SameTask(a, b, canonical)
  {
    SameNumber(a.displayOrder, b.displayOrder);
    SameNumber(a.timeoutSeconds, b.timeoutSeconds);
    hide Itoa;
    assert TaskChanges(a, b, canonical) == []
      <==> PlainChanges(a, b) == [] && ContractChanges(a, b, canonical) == [] && PolicyChanges(a, b, canonical) == [];
  }

  // ---- entry by entry ----

  lemma StageSide(stages: seq<Stage>, name: string)
    requires DistinctNames(stages)
    ensures forall s :: StageNamed(stages, name, s) ==> Side(StageItems(stages), name) == Some(StageFields(s))
    ensures Side(StageItems(stages), name) == None <==> !HasStage(stages, name)
  {
    hide StageFields;
    var items := StageItems(stages);
    StageItemsDistinct(stages);
    forall s | StageNamed(stages, name, s)
      ensures Side(items, name) == Some(StageFields(s))
    {
      var i :| 0 <= i < |stages| && stages[i] == s;
      assert items[i] == StageItem(s);
      SideFound(items, StageItem(s));
    }
    if Side(items, name).Some? {
      var i :| 0 <= i < |items| && items[i] == Item(name, Side(items, name).value);
      assert StageNamed(stages, name, stages[i]);
    }
  }

  lemma TaskSide(stages: seq<Stage>, canonical: string -> string, key: TaskKey)
    requires DistinctNames(stages)
    ensures forall t :: TaskNamed(stages, key, t) ==> Side(TaskItems(stages, canonical), key) == Some(TaskFields(t, canonical))
    ensures Side(TaskItems(stages, canonical), key) == None <==> !HasTask(stages, key)
  {
    hide TaskFields, TaskItems;
    var items := TaskItems(stages, canonical);
    TaskItemsDistinct(stages, canonical);
    forall t | TaskNamed(stages, key, t)
      ensures Side(items, key) == Some(TaskFields(t, canonical))
    {
      var s :| StageNamed(stages, key.0, s) && t in s.tasks && t.name == key.1;
      var x := TaskItem(key.0, t, canonical);
      assert TaskAmong(s.tasks, s.name, canonical, x);
      TaskItemMember(stages, canonical, x);
      SideFound(items, x);
    }
    if Side(items, key).Some? {
      var x := Item(key, Side(items, key).value);
      TaskItemMember(stages, canonical, x);
      var s :| s in stages && TaskAmong(s.tasks, s.name, canonical, x);
      var t :| t in s.tasks && x == TaskItem(s.name, t, canonical);
      assert StageNamed(stages, key.0, s) && TaskNamed(stages, key, t);
    }
  }

  ghost predicate StageModified(from: seq<Stage>, to: seq<Stage>, name: string, changes: seq<FieldChange>) {
    exists a, b ::
      StageNamed(from, name, a) && StageNamed(to, name, b) && !SameStage(a, b) && changes == StageChanges(a, b)
  }

  ghost predicate TaskModified(from: seq<Stage>, to: seq<Stage>, canonical: string -> string, key: TaskKey,
                               changes: seq<FieldChange>) {
    exists a, b :: TaskNamed(from, key, a) && TaskNamed(to, key, b) && !SameTask(a, b, canonical)
      && changes == TaskChanges(a, b, canonical)
  }

  /** A stage is listed as added or removed exactly when only one side has it, and as modified, with
      its changed fields in order, exactly when both have it and something compared differs. */
  lemma StageListedIff(from: Snapshot, to: Snapshot, canonical: string -> string, d: SnapshotDiff, e: StageDiff)
    requires DistinctNames(from.stages) && DistinctNames(to.stages) && IsDiff(from, to, canonical, d)
    ensures e in d.stages <==>
      match e.change
      case Added => e.fields == [] && !HasStage(from.stages, e.key) && HasStage(to.stages, e.key)
      case Removed => e.fields == [] && HasStage(from.stages, e.key) && !HasStage(to.stages, e.key)
      case Modified => StageModified(from.stages, to.stages, e.key, e.fields)
  {
    hide StageFields, StageChanges, FieldChanges, StageItems, DistinctNames, StageNamed, SameStage, TaskItems;
    StageSide(from.stages, e.key);
    StageSide(to.stages, e.key);
    forall a, b | StageNamed(from.stages, e.key, a) && StageNamed(to.stages, e.key, b)
      ensures |StageFields(a)| == |StageFields(b)|
      ensures FieldChanges(StageFields(a), StageFields(b)) == StageChanges(a, b)
      ensures StageChanges(a, b) == [] <==> SameStage(a, b)
    {
      StageFieldChanges(a, b);
      StageShown(a);
      StageShown(b);
    }
  }

  lemma StageShown(s: Stage)
    ensures |StageFields(s)| == 2
  {
  }

  /** The same for tasks, which are named within their stage. */
  lemma TaskListedIff(from: Snapshot, to: Snapshot, canonical: string -> string, d: SnapshotDiff, e: TaskDiff)
    requires DistinctNames(from.stages) && DistinctNames(to.stages) && IsDiff(from, to, canonical, d)
    ensures e in d.tasks <==>
      match e.change
      case Added => e.fields == [] && !HasTask(from.stages, e.key) && HasTask(to.stages, e.key)
      case Removed => e.fields == [] && HasTask(from.stages, e.key) && !HasTask(to.stages, e.key)
      case Modified => TaskModified(from.stages, to.stages, canonical, e.key, e.fields)
  {
    hide TaskFields, TaskChanges, FieldChanges, TaskItems, DistinctNames, TaskNamed, SameTask, StageItems;
    TaskSide(from.stages, canonical, e.key);
    TaskSide(to.stages, canonical, e.key);
    forall a, b | TaskNamed(from.stages, e.key, a) && TaskNamed(to.stages, e.key, b)
      ensures |TaskFields(a, canonical)| == |TaskFields(b, canonical)|
      ensures FieldChanges(TaskFields(a, canonical), TaskFields(b, canonical)) == TaskChanges(a, b, canonical)
      ensures TaskChanges(a, b, canonical) == [] <==> SameTask(a, b, canonical)
    {
      TaskFieldChanges(a, b, canonical);
      NoTaskChanges(a, b, canonical);
      TaskFieldsSameNames(a, b, canonical);
    }
  }

  // ---- nothing to report ----

  /** Both sides have a stage of that name, with nothing compared different, or neither has. */
  ghost predicate SameUnder(from: seq<Stage>, to: seq<Stage>, name: string) {
    && (HasStage(from, name) <==> HasStage(to, name))
    && forall a, b :: StageNamed(from, name, a) && StageNamed(to, name, b) ==> SameStage(a, b)
  }

  ghost predicate SameTaskUnder(from: seq<Stage>, to: seq<Stage>, canonical: string -> string, key: TaskKey) {
    && (HasTask(from, key) <==> HasTask(to, key))
    && forall a, b :: TaskNamed(from, key, a) && TaskNamed(to, key, b) ==> SameTask(a, b, canonical)
  }

  lemma StageAgreesIff(from: seq<Stage>, to: seq<Stage>, name: string)
    requires DistinctNames(from) && DistinctNames(to)
    ensures Side(StageItems(from), name) == Side(StageItems(to), name) <==> SameUnder(from, to, name)
  {
    hide StageFields, StageItems, DistinctNames, SameStage, Side, StageNamed;
    StageSide(from, name);
    StageSide(to, name);
    forall a, b
      ensures StageFields(a) == StageFields(b) <==> SameStage(a, b)
    {
      StageFieldsFaithful(a, b);
      SameStageIs(a, b);
    }
  }

  lemma SameStageIs(a: Stage, b: Stage)
    ensures SameStage(a, b) <==> a.sequence == b.sequence && a.executionMode == b.executionMode
  {
  }

  lemma TaskAgreesIff(from: seq<Stage>, to: seq<Stage>, canonical: string -> string, key: TaskKey)
    requires DistinctNames(from) && DistinctNames(to)
    ensures Side(TaskItems(from, canonical), key) == Side(TaskItems(to, canonical), key)
      <==> SameTaskUnder(from, to, canonical, key)
  {
    hide TaskFields, TaskItems, DistinctNames, SameTask, Side, TaskNamed;
    TaskSide(from, canonical, key);
    TaskSide(to, canonical, key);
    forall a, b
      ensures TaskFields(a, canonical) == TaskFields(b, canonical) <==> SameTask(a, b, canonical)
    {
      TaskFieldsFaithful(a, b, canonical);
    }
  }

  /** Fields shown alike are alike: tasks show the same exactly when everything compared is the same. */
  lemma TaskFieldsFaithful(a: Task, b: Task, canonical: string -> string)
    ensures TaskFields(a, canonical) == TaskFields(b, canonical) <==> SameTask(a, b, canonical)
  {
    hide TaskFields, TaskChanges, SameTask, FieldChanges;
    TaskFieldsSameNames(a, b, canonical);
    NoFieldChangesIffEqual(TaskFields(a, canonical), TaskFields(b, canonical));
    TaskFieldChanges(a, b, canonical);
    NoTaskChanges(a, b, canonical);
  }

  /** Versions are reported identical exactly when they have the same stages and tasks by name, and
      nothing compared differs in any of them. */
  lemma IdenticalIffSame(from: Snapshot, to: Snapshot, canonical: string -> string, d: SnapshotDiff)
    requires DistinctNames(from.stages) && DistinctNames(to.stages) && IsDiff(from, to, canonical, d)
    ensures d.identical <==>
      && (forall name :: SameUnder(from.stages, to.stages, name))
      && (forall key :: SameTaskUnder(from.stages, to.stages, canonical, key))
  {
    hide IsDiff, DistinctNames, Side, TaskItems, StageItems, SameUnder, SameTaskUnder;
    IdenticalIffAgree(from, to, canonical, d);
    forall name
      ensures Side(StageItems(from.stages), name) == Side(StageItems(to.stages), name)
        <==> SameUnder(from.stages, to.stages, name)
    {
      StageAgreesIff(from.stages, to.stages, name);
    }
    forall key
      ensures Side(TaskItems(from.stages, canonical), key) == Side(TaskItems(to.stages, canonical), key)
        <==> SameTaskUnder(from.stages, to.stages, canonical, key)
    {
      TaskAgreesIff(from.stages, to.stages, canonical, key);
    }
  }
}
