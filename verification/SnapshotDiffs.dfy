/** Comparing two pipeline snapshots, stage by stage and task by task, by name. */
module SnapshotDiffs {
  import opened Text
  import opened Ordering
  import opened Listings

  datatype Task = Task(
    name: string, kind: string, displayOrder: int, image: string, scriptPath: string, timeoutSeconds: int,
    scriptArgs: string, command: string, args: string, produces: string, consumes: string,
    retryPolicy: string, releaseConfig: string, rolloutConfig: string, approvalConfig: string)

  datatype Stage = Stage(name: string, sequence: int, executionMode: string, tasks: seq<Task>)

  datatype Snapshot = Snapshot(
    pipelineId: string, name: string, kind: string, description: string, params: string, stages: seq<Stage>)

  /** A task is named within its stage. */
  type TaskKey = (string, string)

  type StageDiff = Entry<string>
  type TaskDiff = Entry<TaskKey>

  datatype Summary = Summary(
    stagesAdded: nat, stagesRemoved: nat, stagesModified: nat, tasksAdded: nat, tasksRemoved: nat, tasksModified: nat)

  datatype SnapshotDiff = SnapshotDiff(
    fromVersion: int, toVersion: int, stages: seq<StageDiff>, tasks: seq<TaskDiff>, summary: Summary, identical: bool)

  function StageFields(s: Stage): seq<Field> {
    [Field("sequence", Itoa(s.sequence)), Field("executionMode", s.executionMode)]
  }

  /** JSON columns are compared in their canonical form. */
  function TaskFields(t: Task, canonical: string -> string): seq<Field> {
    [Field("type", t.kind), Field("displayOrder", Itoa(t.displayOrder)), Field("image", t.image),
     Field("scriptPath", t.scriptPath), Field("timeoutSeconds", Itoa(t.timeoutSeconds)),
     Field("scriptArgs", canonical(t.scriptArgs)), Field("command", canonical(t.command)),
     Field("args", canonical(t.args)), Field("produces", canonical(t.produces)),
     Field("consumes", canonical(t.consumes)), Field("retryPolicy", canonical(t.retryPolicy)),
     Field("releaseConfig", canonical(t.releaseConfig)), Field("rolloutConfig", canonical(t.rolloutConfig)),
     Field("approvalConfig", canonical(t.approvalConfig))]
  }

  function StageItem(s: Stage): Item<string> {
    Item(s.name, StageFields(s))
  }

  function TaskItem(stage: string, t: Task, canonical: string -> string): Item<TaskKey> {
    Item((stage, t.name), TaskFields(t, canonical))
  }

  function StageItems(stages: seq<Stage>): (r: seq<Item<string>>)
    ensures |r| == |stages| && forall i :: 0 <= i < |stages| ==> r[i] == StageItem(stages[i])
  {
    seq(|stages|, i requires 0 <= i < |stages| => StageItem(stages[i]))
  }

  function ItemsOfTasks(stage: string, tasks: seq<Task>, canonical: string -> string): (r: seq<Item<TaskKey>>)
    ensures |r| == |tasks| && forall i :: 0 <= i < |tasks| ==> r[i] == TaskItem(stage, tasks[i], canonical)
  {
    seq(|tasks|, i requires 0 <= i < |tasks| => TaskItem(stage, tasks[i], canonical))
  }

  function TaskItems(stages: seq<Stage>, canonical: string -> string): seq<Item<TaskKey>> {
    if stages == [] then []
    else
      var last := stages[|stages| - 1];
      TaskItems(stages[..|stages| - 1], canonical) + ItemsOfTasks(last.name, last.tasks, canonical)
  }

  ghost predicate DistinctTasks(tasks: seq<Task>) {
    forall i, j :: 0 <= i < j < |tasks| ==> tasks[i].name != tasks[j].name
  }

  /** Stage names are unique in a pipeline and task names in a stage. */
  ghost predicate DistinctNames(stages: seq<Stage>) {
    && (forall i, j :: 0 <= i < j < |stages| ==> stages[i].name != stages[j].name)
    && forall s :: s in stages ==> DistinctTasks(s.tasks)
  }

  predicate TaskKeyLess(a: TaskKey, b: TaskKey) {
    StrLess(a.0, b.0) || (a.0 == b.0 && StrLess(a.1, b.1))
  }

  function SummaryOf(stages: seq<StageDiff>, tasks: seq<TaskDiff>): Summary {
    Summary(CountOf(stages, Added), CountOf(stages, Removed), CountOf(stages, Modified),
            CountOf(tasks, Added), CountOf(tasks, Removed), CountOf(tasks, Modified))
  }

  /** The comparison of two snapshots: for stages and for tasks, the listing of every name that
      calls for an entry; the counts of those listings; and whether both are empty. */
  ghost predicate IsDiff(from: Snapshot, to: Snapshot, canonical: string -> string, d: SnapshotDiff) {
    && IsListing(StageItems(from.stages), StageItems(to.stages), StrLess, d.stages)
    && IsListing(TaskItems(from.stages, canonical), TaskItems(to.stages, canonical), TaskKeyLess, d.tasks)
    && d.summary == SummaryOf(d.stages, d.tasks)
    && (d.identical <==> d.stages == [] && d.tasks == [])
  }

  lemma KeyOrders()
    ensures StrictOrder<string>(StrLess) && StrictOrder<TaskKey>(TaskKeyLess)
    ensures forall a: string, b: string :: a != b ==> StrLess(a, b) || StrLess(b, a)
    ensures forall a: TaskKey, b: TaskKey :: a != b ==> TaskKeyLess(a, b) || TaskKeyLess(b, a)
  {
    StrLessIsStrictOrder();
    forall a: TaskKey, b: TaskKey
      ensures TaskKeyLess(a, b) ==> !TaskKeyLess(b, a)
      ensures a != b ==> TaskKeyLess(a, b) || TaskKeyLess(b, a)
    {
      StrLessTrichotomy(a.0, b.0);
      StrLessTrichotomy(a.1, b.1);
    }
    forall a: string, b: string
      ensures a != b ==> StrLess(a, b) || StrLess(b, a)
    {
      StrLessTrichotomy(a, b);
    }
  }

  lemma StagesUniform(from: seq<Stage>, to: seq<Stage>)
    ensures Uniform(StageItems(from), StageItems(to))
  {
  }

  ghost predicate TaskAmong(tasks: seq<Task>, stage: string, canonical: string -> string, x: Item<TaskKey>) {
    exists t :: t in tasks && x == TaskItem(stage, t, canonical)
  }

  lemma ItemsOfTasksMember(stage: string, tasks: seq<Task>, canonical: string -> string, x: Item<TaskKey>)
    ensures x in ItemsOfTasks(stage, tasks, canonical) <==> TaskAmong(tasks, stage, canonical, x)
  {
    hide TaskItem;
    var items := ItemsOfTasks(stage, tasks, canonical);
    if t :| t in tasks && x == TaskItem(stage, t, canonical) {
      var i :| 0 <= i < |tasks| && tasks[i] == t;
      assert items[i] == x;
    }
  }

  lemma {:induction false} TaskItemMember(stages: seq<Stage>, canonical: string -> string, x: Item<TaskKey>)
    ensures x in TaskItems(stages, canonical) <==> exists s :: s in stages && TaskAmong(s.tasks, s.name, canonical, x)
    decreases |stages|
  {
    if stages != [] {
      hide TaskItem, TaskAmong;
      var front, last := stages[..|stages| - 1], stages[|stages| - 1];
      TaskItemMember(front, canonical, x);
      assert stages == front + [last];
      ItemsOfTasksMember(last.name, last.tasks, canonical, x);
    }
  }

  lemma TaskFieldsSameNames(a: Task, b: Task, canonical: string -> string)
    ensures SameNames(TaskFields(a, canonical), TaskFields(b, canonical))
  {
  }

  lemma TasksUniform(from: seq<Stage>, to: seq<Stage>, canonical: string -> string)
    ensures Uniform(TaskItems(from, canonical), TaskItems(to, canonical))
  {
    forall x, y | x in TaskItems(from, canonical) && y in TaskItems(to, canonical)
      ensures SameNames(x.fields, y.fields) && SameNames(y.fields, x.fields)
    {
      hide TaskItems, TaskFields, SameNames;
      TaskItemMember(from, canonical, x);
      TaskItemMember(to, canonical, y);
      var s :| s in from && TaskAmong(s.tasks, s.name, canonical, x);
      var t :| t in s.tasks && x == TaskItem(s.name, t, canonical);
      var s' :| s' in to && TaskAmong(s'.tasks, s'.name, canonical, y);
      var t' :| t' in s'.tasks && y == TaskItem(s'.name, t', canonical);
      TaskFieldsSameNames(t, t', canonical);
      TaskFieldsSameNames(t', t, canonical);
    }
  }

  // ---- the laws ----

  function FlipSummary(s: Summary): Summary {
    Summary(s.stagesRemoved, s.stagesAdded, s.stagesModified, s.tasksRemoved, s.tasksAdded, s.tasksModified)
  }

  /** The diff read in the other direction. */
  function Reversed(d: SnapshotDiff): SnapshotDiff {
    SnapshotDiff(d.toVersion, d.fromVersion, Flip(d.stages), Flip(d.tasks), FlipSummary(d.summary), d.identical)
  }

  /** Comparing the other way round gives the same entries in the same order, with added and
      removed exchanged, every field change reversed, and the counts exchanged. */
  lemma DiffIsDual(from: Snapshot, to: Snapshot, canonical: string -> string, d: SnapshotDiff, e: SnapshotDiff)
    requires IsDiff(from, to, canonical, d) && IsDiff(to, from, canonical, e)
    requires e.fromVersion == d.toVersion && e.toVersion == d.fromVersion
    ensures e == Reversed(d)
  {
    hide IsListing, TaskItems, TaskFields;
    KeyOrders();
    StagesUniform(from.stages, to.stages);
    TasksUniform(from.stages, to.stages, canonical);
    ListingIsDual(StageItems(from.stages), StageItems(to.stages), StrLess, d.stages, e.stages);
    ListingIsDual(TaskItems(from.stages, canonical), TaskItems(to.stages, canonical), TaskKeyLess, d.tasks, e.tasks);
    FlipCount(d.stages, Added);
    FlipCount(d.stages, Removed);
    FlipCount(d.stages, Modified);
    FlipCount(d.tasks, Added);
    FlipCount(d.tasks, Removed);
    FlipCount(d.tasks, Modified);
  }

  /** There is only one diff of two snapshots. */
  lemma DiffUnique(from: Snapshot, to: Snapshot, canonical: string -> string, d: SnapshotDiff, e: SnapshotDiff)
    requires IsDiff(from, to, canonical, d) && IsDiff(from, to, canonical, e)
    ensures d.stages == e.stages && d.tasks == e.tasks && d.summary == e.summary && d.identical == e.identical
  {
    hide TaskItems, StageItems, Delta;
    KeyOrders();
    ByKeyIsStrictOrder<string>(StrLess);
    ByKeyIsStrictOrder<TaskKey>(TaskKeyLess);
    AscendingUnique(d.stages, e.stages, ByKey(StrLess));
    AscendingUnique(d.tasks, e.tasks, ByKey(TaskKeyLess));
  }

  /** A diff is identical exactly when both sides have the same stages and tasks and show the same
      value in every compared field. Names, kinds, descriptions and parameters of the pipelines
      are not compared. */
  lemma IdenticalIffAgree(from: Snapshot, to: Snapshot, canonical: string -> string, d: SnapshotDiff)
    requires IsDiff(from, to, canonical, d)
    ensures d.identical <==>
      && Agree(StageItems(from.stages), StageItems(to.stages))
      && Agree(TaskItems(from.stages, canonical), TaskItems(to.stages, canonical))
  {
    hide IsListing, TaskItems, TaskFields, Agree;
    StagesUniform(from.stages, to.stages);
    TasksUniform(from.stages, to.stages, canonical);
    EmptyIffAgree(StageItems(from.stages), StageItems(to.stages), StrLess, d.stages);
    EmptyIffAgree(TaskItems(from.stages, canonical), TaskItems(to.stages, canonical), TaskKeyLess, d.tasks);
  }

  /** Fields shown alike are alike: stages agree exactly when position and mode do. */
  lemma StageFieldsFaithful(a: Stage, b: Stage)
    ensures StageFields(a) == StageFields(b) <==> a.sequence == b.sequence && a.executionMode == b.executionMode
  {
    if StageFields(a) == StageFields(b) {
      assert StageFields(a)[0] == StageFields(b)[0] && StageFields(a)[1] == StageFields(b)[1];
      ItoaInjective(a.sequence, b.sequence);
    }
  }

  /** Pipelines that differ only in their own name, kind, description or parameters are reported identical. */
  lemma RenameLooksIdentical(from: Snapshot, to: Snapshot, canonical: string -> string, d: SnapshotDiff)
    requires from.stages == to.stages && IsDiff(from, to, canonical, d)
    ensures d.identical && d.stages == [] && d.tasks == []
  {
    hide StageItems, TaskItems, IsListing;
    IdenticalIffAgree(from, to, canonical, d);
  }

  lemma ItemsOfTasksDistinct(stage: string, tasks: seq<Task>, canonical: string -> string)
    requires DistinctTasks(tasks)
    ensures DistinctKeys(ItemsOfTasks(stage, tasks, canonical))
    ensures forall x :: x in ItemsOfTasks(stage, tasks, canonical) ==> x.key.0 == stage
  {
    hide TaskFields;
  }

  lemma TaskItemStage(stages: seq<Stage>, canonical: string -> string, x: Item<TaskKey>)
    requires x in TaskItems(stages, canonical)
    ensures exists i :: 0 <= i < |stages| && stages[i].name == x.key.0
  {
    TaskItemMember(stages, canonical, x);
    hide TaskItems, TaskFields;
    var s :| s in stages && TaskAmong(s.tasks, s.name, canonical, x);
    var i :| 0 <= i < |stages| && stages[i] == s;
    assert stages[i].name == x.key.0;
  }

  lemma DistinctNamesSplit(stages: seq<Stage>)
    requires DistinctNames(stages) && stages != []
    ensures var front, last := stages[..|stages| - 1], stages[|stages| - 1];
      DistinctNames(front) && DistinctTasks(last.tasks) && forall i :: 0 <= i < |front| ==> front[i].name != last.name
  {
    hide DistinctTasks;
  }

  lemma {:induction false} TaskItemsDistinct(stages: seq<Stage>, canonical: string -> string)
    requires DistinctNames(stages)
    ensures DistinctKeys(TaskItems(stages, canonical))
    decreases |stages|
  {
    if stages != [] {
      hide TaskItem, DistinctTasks, DistinctNames, DistinctKeys;
      var front, last := stages[..|stages| - 1], stages[|stages| - 1];
      DistinctNamesSplit(stages);
      TaskItemsDistinct(front, canonical);
      ItemsOfTasksDistinct(last.name, last.tasks, canonical);
      var a, b := TaskItems(front, canonical), ItemsOfTasks(last.name, last.tasks, canonical);
      forall x, y | x in a && y in b
        ensures x.key != y.key
      {
        TaskItemStage(front, canonical, x);
      }
      ConcatDistinct(a, b);
    } else {
      NoneDistinct(TaskItems(stages, canonical));
    }
  }

  /** The tasks of all stages together. */
  function TaskTotal(stages: seq<Stage>): nat {
    if stages == [] then 0 else TaskTotal(stages[..|stages| - 1]) + |stages[|stages| - 1].tasks|
  }

  lemma {:induction false} TaskItemsCount(stages: seq<Stage>, canonical: string -> string)
    ensures |TaskItems(stages, canonical)| == TaskTotal(stages)
    decreases |stages|
  {
    if stages != [] {
      TaskItemsCount(stages[..|stages| - 1], canonical);
    }
  }

  /** Stages and tasks are conserved: what the newer side has is what the older had, plus the
      added, minus the removed. */
  lemma DiffConserves(from: Snapshot, to: Snapshot, canonical: string -> string, d: SnapshotDiff)
    requires DistinctNames(from.stages) && DistinctNames(to.stages) && IsDiff(from, to, canonical, d)
    ensures |to.stages| == |from.stages| + d.summary.stagesAdded - d.summary.stagesRemoved
    ensures TaskTotal(to.stages) == TaskTotal(from.stages) + d.summary.tasksAdded - d.summary.tasksRemoved
  {
    hide IsListing, TaskItems;
    TaskItemsCount(from.stages, canonical);
    TaskItemsCount(to.stages, canonical);
    KeyOrders();
    TaskItemsDistinct(from.stages, canonical);
    TaskItemsDistinct(to.stages, canonical);
    ItemsConserved(StageItems(from.stages), StageItems(to.stages), StrLess, d.stages);
    ItemsConserved(TaskItems(from.stages, canonical), TaskItems(to.stages, canonical), TaskKeyLess, d.tasks);
  }

  // ---- computing it ----

  function ChangeRank(c: Change): int {
    match c
    case Added => 0
    case Modified => 1
    case Removed => 2
  }

  predicate StageOrder(a: StageDiff, b: StageDiff) {
    if a.key != b.key then StrLess(a.key, b.key) else ChangeRank(a.change) < ChangeRank(b.change)
  }

  predicate TaskOrder(a: TaskDiff, b: TaskDiff) {
    if a.key.0 != b.key.0 then StrLess(a.key.0, b.key.0)
    else if a.key.1 != b.key.1 then StrLess(a.key.1, b.key.1)
    else ChangeRank(a.change) < ChangeRank(b.change)
  }

  lemma SortOrders()
    ensures Transitive(StageOrder) && Transitive(TaskOrder)
    ensures forall a: StageDiff, b: StageDiff :: a.key != b.key ==> (StageOrder(a, b) <==> StrLess(a.key, b.key))
    ensures forall a: TaskDiff, b: TaskDiff :: a.key != b.key ==> (TaskOrder(a, b) <==> TaskKeyLess(a.key, b.key))
  {
    StrLessIsStrictOrder();
    forall a: TaskDiff, b: TaskDiff | a.key != b.key
      ensures TaskOrder(a, b) <==> TaskKeyLess(a.key, b.key)
    {
      StrLessTrichotomy(a.key.0, a.key.0);
    }
  }

  ghost predicate Indexes(index: map<string, Stage>, stages: seq<Stage>) {
    && (forall i :: 0 <= i < |stages| ==> stages[i].name in index && index[stages[i].name] == stages[i])
    && forall name :: name in index ==> index[name] in stages && index[name].name == name
  }

  method IndexStages(stages: seq<Stage>) returns (index: map<string, Stage>)
    requires DistinctNames(stages)
    ensures Indexes(index, stages)
  {
    index := map[];
    for i := 0 to |stages|
      invariant forall j :: 0 <= j < i ==> stages[j].name in index && index[stages[j].name] == stages[j]
      invariant forall name :: name in index ==> index[name] in stages && index[name].name == name
    {
      index := index[stages[i].name := stages[i]];
    }
  }

  ghost predicate IndexesTasks(index: map<string, Task>, tasks: seq<Task>) {
    && (forall i :: 0 <= i < |tasks| ==> tasks[i].name in index && index[tasks[i].name] == tasks[i])
    && forall name :: name in index ==> index[name] in tasks && index[name].name == name
  }

  /** The stage of that name, if the list has one. */
  ghost predicate IsNamed(stage: Option<Stage>, stages: seq<Stage>, name: string) {
    match stage
    case None => forall s :: s in stages ==> s.name != name
    case Some(s) => s in stages && s.name == name
  }

  method IndexTasks(tasks: seq<Task>) returns (index: map<string, Task>)
    requires DistinctTasks(tasks)
    ensures IndexesTasks(index, tasks)
  {
    index := map[];
    for i := 0 to |tasks|
      invariant forall j :: 0 <= j < i ==> tasks[j].name in index && index[tasks[j].name] == tasks[j]
      invariant forall name :: name in index ==> index[name] in tasks && index[name].name == name
    {
      index := index[tasks[i].name := tasks[i]];
    }
  }

  lemma StageSideIs(stages: seq<Stage>, index: map<string, Stage>, name: string)
    requires DistinctNames(stages)
    requires Indexes(index, stages)
    ensures Side(StageItems(stages), name) == if name in index then Some(StageFields(index[name])) else None
  {
    var items := StageItems(stages);
    if name in index {
      var i :| 0 <= i < |stages| && stages[i] == index[name];
      SideFound(items, items[i]);
    } else {
      assert forall i :: 0 <= i < |items| ==> items[i].key != name;
    }
  }

  /** A task is found in its stage when both sides have that stage. */
  lemma TaskSideIs(stages: seq<Stage>, canonical: string -> string, stage: Option<Stage>, index: map<string, Task>,
                   key: TaskKey)
    requires DistinctNames(stages)
    requires IsNamed(stage, stages, key.0)
    requires stage.Some? ==> IndexesTasks(index, stage.value.tasks)
    ensures Side(TaskItems(stages, canonical), key)
      == if stage.Some? && key.1 in index then Some(TaskFields(index[key.1], canonical)) else None
  {
    hide TaskItems, TaskFields;
    var items := TaskItems(stages, canonical);
    TaskItemsDistinct(stages, canonical);
    if stage.Some? && key.1 in index {
      var x := TaskItem(key.0, index[key.1], canonical);
      assert TaskAmong(stage.value.tasks, stage.value.name, canonical, x);
      TaskItemMember(stages, canonical, x);
      SideFound(items, x);
    } else {
      var found := Side(items, key);
      if found.Some? {
        TaskItemMember(stages, canonical, Item(key, found.value));
      }
    }
  }

  /** The entry for a stage of the newer side. */
  function StageEntry(fromStages: map<string, Stage>, s: Stage): (e: Option<StageDiff>)
    ensures e.Some? ==> e.value.change == Added || e.value.change == Modified
  {
    if s.name !in fromStages then Some(Entry(s.name, Added, []))
    else
      var fields := FieldChanges(StageFields(fromStages[s.name]), StageFields(s));
      if fields != [] then Some(Entry(s.name, Modified, fields)) else None
  }

  lemma StageEntryIsVerdict(from: seq<Stage>, fromStages: map<string, Stage>, s: Stage)
    requires Side(StageItems(from), s.name) == if s.name in fromStages then Some(StageFields(fromStages[s.name])) else None
    ensures EntryTo(StageItems(from), StageItem(s)) ==
      match StageEntry(fromStages, s)
      case None => []
      case Some(e) => [e]
  {
    hide StageItems, Side;
  }

  /** The first stage pass: added and modified stages, in the newer side's order. */
  method StagePassTo(from: seq<Stage>, to: seq<Stage>, fromStages: map<string, Stage>)
    returns (out: seq<StageDiff>, added: nat, modified: nat)
    requires DistinctNames(from)
    requires Indexes(fromStages, from)
    ensures out == EntriesTo(StageItems(from), StageItems(to))
    ensures Counted(out, added, 0, modified)
  {
    ghost var fs, ts := StageItems(from), StageItems(to);
    out, added, modified := [], 0, 0;
    for i := 0 to |to|
      invariant out == EntriesTo(fs, ts[..i])
      invariant Counted(out, added, 0, modified)
    {
      hide EntriesTo, EntryTo, StageFields, Counted, StageEntry, Indexes, DistinctNames, Side, StageItem;
      var s := to[i];
      PassToNext(fs, ts, i);
      StageSideIs(from, fromStages, s.name);
      StageEntryIsVerdict(from, fromStages, s);
      var wanted := StageEntry(fromStages, s);
      if wanted.Some? {
        CountsAppend(out, wanted.value, added, 0, modified);
        out := out + [wanted.value];
        if wanted.value.change == Added {
          added := added + 1;
        } else {
          modified := modified + 1;
        }
      }
    }
    assert ts[..|to|] == ts;
  }

  /** The second stage pass: stages the newer side no longer has. */
  method StagePassFrom(from: seq<Stage>, to: seq<Stage>, toStages: map<string, Stage>)
    returns (out: seq<StageDiff>, removed: nat)
    requires DistinctNames(to)
    requires Indexes(toStages, to)
    ensures out == EntriesFrom(StageItems(from), StageItems(to))
    ensures Counted(out, 0, removed, 0)
  {
    ghost var fs, ts := StageItems(from), StageItems(to);
    out, removed := [], 0;
    for i := 0 to |from|
      invariant out == EntriesFrom(fs[..i], ts)
      invariant Counted(out, 0, removed, 0)
    {
      hide EntriesFrom, StageFields, Counted, Indexes, DistinctNames;
      var s := from[i];
      PassFromNext(fs, ts, i);
      StageSideIs(to, toStages, s.name);
      if s.name !in toStages {
        var e := Entry(s.name, Removed, []);
        CountsAppend(out, e, 0, removed, 0);
        out, removed := out + [e], removed + 1;
      }
    }
    assert fs[..|from|] == fs;
  }

  /** The tasks of one stage of the newer side against the same stage of the older. */
  method TaskPassTo(from: seq<Stage>, s: Stage, previous: Option<Stage>, canonical: string -> string,
                    ghost done: seq<Item<TaskKey>>, before: seq<TaskDiff>, addedBefore: nat, modifiedBefore: nat)
    returns (out: seq<TaskDiff>, added: nat, modified: nat)
    requires DistinctNames(from)
    requires IsNamed(previous, from, s.name)
    requires before == EntriesTo(TaskItems(from, canonical), done)
    requires Counted(before, addedBefore, 0, modifiedBefore)
    ensures out == EntriesTo(TaskItems(from, canonical), done + ItemsOfTasks(s.name, s.tasks, canonical))
    ensures Counted(out, added, 0, modified)
  {
    hide TaskItems, EntriesTo, Counted, TaskEntry, IndexesTasks, Through;
    var previousTasks: map<string, Task> := map[];
    if previous.Some? {
      previousTasks := IndexTasks(previous.value.tasks);
    }
    hide IsNamed, DistinctNames;
    ghost var fs, ts := TaskItems(from, canonical), ItemsOfTasks(s.name, s.tasks, canonical);
    out, added, modified := before, addedBefore, modifiedBefore;
    ThroughEnds(done, ts);
    for i := 0 to |s.tasks|
      invariant out == EntriesTo(fs, Through(done, ts, i))
      invariant Counted(out, added, 0, modified)
    {
      var t := s.tasks[i];
      TaskStepTo(from, s, previous, previousTasks, canonical, done, i);
      var wanted := TaskEntry(previous, previousTasks, s.name, t, canonical);
      if wanted.Some? {
        CountsAppend(out, wanted.value, added, 0, modified);
        out := out + [wanted.value];
        if wanted.value.change == Added {
          added := added + 1;
        } else {
          modified := modified + 1;
        }
      }
    }
  }

  /** The entry for a task of the newer side: added when its stage or the task itself is new,
      modified when a compared field differs. */
  function TaskEntry(previous: Option<Stage>, previousTasks: map<string, Task>, stage: string, t: Task,
                     canonical: string -> string): (e: Option<TaskDiff>)
    ensures e.Some? ==> e.value.change == Added || e.value.change == Modified
  {
    if previous == None || t.name !in previousTasks then Some(Entry((stage, t.name), Added, []))
    else
      var fields := FieldChanges(TaskFields(previousTasks[t.name], canonical), TaskFields(t, canonical));
      if fields != [] then Some(Entry((stage, t.name), Modified, fields)) else None
  }

  lemma TaskEntryIsVerdict(fs: seq<Item<TaskKey>>, previous: Option<Stage>, previousTasks: map<string, Task>,
                           stage: string, t: Task, canonical: string -> string)
    requires Side(fs, (stage, t.name))
      == if previous.Some? && t.name in previousTasks then Some(TaskFields(previousTasks[t.name], canonical)) else None
    ensures EntryTo(fs, TaskItem(stage, t, canonical)) ==
      match TaskEntry(previous, previousTasks, stage, t, canonical)
      case None => []
      case Some(e) => [e]
  {
    if previous.Some? && t.name in previousTasks {
      TaskFieldsSameNames(previousTasks[t.name], t, canonical);
    }
    hide TaskFields, FieldChanges, Side;
  }

  lemma TaskStepTo(from: seq<Stage>, s: Stage, previous: Option<Stage>, previousTasks: map<string, Task>,
                   canonical: string -> string, done: seq<Item<TaskKey>>, i: nat)
    requires DistinctNames(from) && IsNamed(previous, from, s.name)
    requires previous.Some? ==> IndexesTasks(previousTasks, previous.value.tasks)
    requires i < |s.tasks|
    ensures var fs, ts := TaskItems(from, canonical), ItemsOfTasks(s.name, s.tasks, canonical);
      EntriesTo(fs, Through(done, ts, i + 1)) == EntriesTo(fs, Through(done, ts, i)) +
        match TaskEntry(previous, previousTasks, s.name, s.tasks[i], canonical)
        case None => []
        case Some(e) => [e]
  {
    hide TaskItems, EntriesTo, Through, TaskEntry, TaskFields, EntryTo;
    var fs, ts := TaskItems(from, canonical), ItemsOfTasks(s.name, s.tasks, canonical);
    PassNext(fs, done, ts, i);
    TaskSideIs(from, canonical, previous, previousTasks, (s.name, s.tasks[i].name));
    TaskEntryIsVerdict(fs, previous, previousTasks, s.name, s.tasks[i], canonical);
  }

  /** The tasks of one stage of the older side that the newer side no longer has. */
  method TaskPassFrom(to: seq<Stage>, s: Stage, next: Option<Stage>, canonical: string -> string,
                      ghost done: seq<Item<TaskKey>>, before: seq<TaskDiff>, removedBefore: nat)
    returns (out: seq<TaskDiff>, removed: nat)
    requires DistinctNames(to)
    requires IsNamed(next, to, s.name)
    requires before == EntriesFrom(done, TaskItems(to, canonical))
    requires Counted(before, 0, removedBefore, 0)
    ensures out == EntriesFrom(done + ItemsOfTasks(s.name, s.tasks, canonical), TaskItems(to, canonical))
    ensures Counted(out, 0, removed, 0)
  {
    hide TaskItems, TaskFields, EntriesFrom, Counted, IndexesTasks, Through;
    var nextTasks: map<string, Task> := map[];
    if next.Some? {
      nextTasks := IndexTasks(next.value.tasks);
    }
    ghost var ts, fs := TaskItems(to, canonical), ItemsOfTasks(s.name, s.tasks, canonical);
    out, removed := before, removedBefore;
    ThroughEnds(done, fs);
    for i := 0 to |s.tasks|
      invariant out == EntriesFrom(Through(done, fs, i), ts)
      invariant Counted(out, 0, removed, 0)
    {
      var t := s.tasks[i];
      PassNext(ts, done, fs, i);
      TaskSideIs(to, canonical, next, nextTasks, (s.name, t.name));
      if !(next.Some? && t.name in nextTasks) {
        var e := Entry((s.name, t.name), Removed, []);
        CountsAppend(out, e, 0, removed, 0);
        out, removed := out + [e], removed + 1;
      }
    }
  }

  /** Compares two snapshot bodies: two passes over the stages, two over the tasks, then sorting. */
  method DiffSnapshots(from: Snapshot, to: Snapshot, fromVersion: int, toVersion: int, canonical: string -> string)
    returns (d: SnapshotDiff)
    requires DistinctNames(from.stages) && DistinctNames(to.stages)
    ensures IsDiff(from, to, canonical, d) && d.fromVersion == fromVersion && d.toVersion == toVersion
  {
    hide TaskItems, TaskFields, EntriesTo, EntriesFrom, IsListing, StageItems, CountOf, SortStable;
    var fromStages := IndexStages(from.stages);
    var toStages := IndexStages(to.stages);
    var stagesTo, stagesAdded, stagesModified := StagePassTo(from.stages, to.stages, fromStages);
    var stagesFrom, stagesRemoved := StagePassFrom(from.stages, to.stages, toStages);
    var tasksTo, tasksAdded, tasksModified := AllTasksTo(from.stages, to.stages, fromStages, canonical);
    var tasksFrom, tasksRemoved := AllTasksFrom(from.stages, to.stages, toStages, canonical);
    var stages := SortStable(stagesTo + stagesFrom, StageOrder);
    var tasks := SortStable(tasksTo + tasksFrom, TaskOrder);
    d := SnapshotDiff(fromVersion, toVersion, stages, tasks,
                      Summary(stagesAdded, stagesRemoved, stagesModified, tasksAdded, tasksRemoved, tasksModified),
                      |stages| == 0 && |tasks| == 0);
    StagesSorted(from.stages, to.stages, stagesTo + stagesFrom);
    TasksSorted(from.stages, to.stages, canonical, tasksTo + tasksFrom);
    CountConcat(stagesTo, stagesFrom);
    CountConcat(tasksTo, tasksFrom);
  }

  lemma StagesSorted(from: seq<Stage>, to: seq<Stage>, es: seq<StageDiff>)
    requires DistinctNames(from) && DistinctNames(to)
    requires es == EntriesTo(StageItems(from), StageItems(to)) + EntriesFrom(StageItems(from), StageItems(to))
    ensures IsListing(StageItems(from), StageItems(to), StrLess, SortStable(es, StageOrder))
    ensures forall c :: CountOf(SortStable(es, StageOrder), c) == CountOf(es, c)
  {
    hide EntriesTo, EntriesFrom, IsListing, StageItems, SortStable, StageOrder, StrLess;
    KeyOrders();
    SortOrders();
    StageItemsDistinct(from);
    StageItemsDistinct(to);
    SortedPassesAreListing(StageItems(from), StageItems(to), StrLess, StageOrder, es);
  }

  lemma TasksSorted(from: seq<Stage>, to: seq<Stage>, canonical: string -> string, es: seq<TaskDiff>)
    requires DistinctNames(from) && DistinctNames(to)
    requires es == EntriesTo(TaskItems(from, canonical), TaskItems(to, canonical))
      + EntriesFrom(TaskItems(from, canonical), TaskItems(to, canonical))
    ensures IsListing(TaskItems(from, canonical), TaskItems(to, canonical), TaskKeyLess, SortStable(es, TaskOrder))
    ensures forall c :: CountOf(SortStable(es, TaskOrder), c) == CountOf(es, c)
  {
    hide EntriesTo, EntriesFrom, IsListing, TaskItems, SortStable, TaskOrder, TaskKeyLess;
    KeyOrders();
    SortOrders();
    TaskItemsDistinct(from, canonical);
    TaskItemsDistinct(to, canonical);
    SortedPassesAreListing(TaskItems(from, canonical), TaskItems(to, canonical), TaskKeyLess, TaskOrder, es);
  }

  lemma StageItemsDistinct(stages: seq<Stage>)
    requires DistinctNames(stages)
    ensures DistinctKeys(StageItems(stages))
  {
  }

  lemma TaskItemsNext(stages: seq<Stage>, i: nat, canonical: string -> string)
    requires i < |stages|
    ensures TaskItems(stages[..i + 1], canonical)
      == TaskItems(stages[..i], canonical) + ItemsOfTasks(stages[i].name, stages[i].tasks, canonical)
  {
    assert stages[..i + 1][..i] == stages[..i];
  }

  method AllTasksTo(from: seq<Stage>, to: seq<Stage>, fromStages: map<string, Stage>, canonical: string -> string)
    returns (out: seq<TaskDiff>, added: nat, modified: nat)
    requires DistinctNames(from)
    requires Indexes(fromStages, from)
    ensures out == EntriesTo(TaskItems(from, canonical), TaskItems(to, canonical))
    ensures Counted(out, added, 0, modified)
  {
    out, added, modified := [], 0, 0;
    for i := 0 to |to|
      invariant out == EntriesTo(TaskItems(from, canonical), TaskItems(to[..i], canonical))
      invariant Counted(out, added, 0, modified)
    {
      hide EntriesTo, TaskItems, Counted;
      var s := to[i];
      var previous := if s.name in fromStages then Some(fromStages[s.name]) else None;
      out, added, modified := TaskPassTo(from, s, previous, canonical, TaskItems(to[..i], canonical), out, added, modified);
      TaskItemsNext(to, i, canonical);
    }
    assert to[..|to|] == to;
  }

  method AllTasksFrom(from: seq<Stage>, to: seq<Stage>, toStages: map<string, Stage>, canonical: string -> string)
    returns (out: seq<TaskDiff>, removed: nat)
    requires DistinctNames(to)
    requires Indexes(toStages, to)
    ensures out == EntriesFrom(TaskItems(from, canonical), TaskItems(to, canonical))
    ensures Counted(out, 0, removed, 0)
  {
    out, removed := [], 0;
    for i := 0 to |from|
      invariant out == EntriesFrom(TaskItems(from[..i], canonical), TaskItems(to, canonical))
      invariant Counted(out, 0, removed, 0)
    {
      hide EntriesFrom, TaskItems, Counted;
      var s := from[i];
      var next := if s.name in toStages then Some(toStages[s.name]) else None;
      out, removed := TaskPassFrom(to, s, next, canonical, TaskItems(from[..i], canonical), out, removed);
      TaskItemsNext(from, i, canonical);
    }
    assert from[..|from|] == from;
  }
}
