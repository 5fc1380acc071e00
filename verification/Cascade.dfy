/** Deleting a component or a service together with everything below it, in one transaction. */
module Cascade {
  import opened Text

  type Id = string
  type Time = int

  datatype Service = Service(deletedAt: Option<Time>)
  datatype Component = Component(service: Id, deletedAt: Option<Time>)
  datatype Pipeline = Pipeline(component: Id, deletedAt: Option<Time>)
  datatype Stage = Stage(pipeline: Id, deletedAt: Option<Time>)
  datatype TaskTemplate = TaskTemplate(stage: Id, deletedAt: Option<Time>)

  datatype CleanupState = Active | PendingDeletion

  datatype Artifact = Artifact(component: Id, storageKey: string, expiresAt: Option<Time>, cleanup: CleanupState)

  /** The tables a cascade touches, the service and component tables above them, and the
      configuration history it must leave alone. The last four map a row to its component. */
  datatype Db = Db(
    services: map<Id, Service>, components: map<Id, Component>, pipelines: map<Id, Pipeline>,
    stages: map<Id, Stage>, tasks: map<Id, TaskTemplate>, artifacts: map<Id, Artifact>,
    environments: map<Id, Id>, configs: map<Id, Id>, bindings: map<Id, Id>, configHistory: map<Id, Id>)

  function Marked(deletedAt: Option<Time>, now: Time): Option<Time> {
    if deletedAt == None then Some(now) else deletedAt
  }

  // ---- which rows lie below a set of components, deleted or not ----

  predicate PipelineBelow(db: Db, s: set<Id>, p: Id) {
    p in db.pipelines && db.pipelines[p].component in s
  }

  predicate StageBelow(db: Db, s: set<Id>, g: Id) {
    g in db.stages && PipelineBelow(db, s, db.stages[g].pipeline)
  }

  predicate TaskBelow(db: Db, s: set<Id>, t: Id) {
    t in db.tasks && StageBelow(db, s, db.tasks[t].stage)
  }

  // ---- the eight steps ----

  datatype Step = Tasks | Stages | Pipelines | Environments | Configs | Bindings | Artifacts | Components

  const STEPS: seq<Step> := [Tasks, Stages, Pipelines, Environments, Configs, Bindings, Artifacts, Components]

  function TasksAfter(db: Db, s: set<Id>, now: Time): map<Id, TaskTemplate> {
    map t | t in db.tasks ::
      if TaskBelow(db, s, t) then db.tasks[t].(deletedAt := Marked(db.tasks[t].deletedAt, now)) else db.tasks[t]
  }

  function StagesAfter(db: Db, s: set<Id>, now: Time): map<Id, Stage> {
    map g | g in db.stages ::
      if StageBelow(db, s, g) then db.stages[g].(deletedAt := Marked(db.stages[g].deletedAt, now)) else db.stages[g]
  }

  function PipelinesAfter(db: Db, s: set<Id>, now: Time): map<Id, Pipeline> {
    map p | p in db.pipelines ::
      if PipelineBelow(db, s, p) then db.pipelines[p].(deletedAt := Marked(db.pipelines[p].deletedAt, now))
      else db.pipelines[p]
  }

  function ComponentsAfter(db: Db, s: set<Id>, now: Time): map<Id, Component> {
    map c | c in db.components ::
      if c in s then db.components[c].(deletedAt := Marked(db.components[c].deletedAt, now)) else db.components[c]
  }

  /** A row already waiting for deletion keeps its own expiry. */
  function ArtifactsAfter(artifacts: map<Id, Artifact>, s: set<Id>, now: Time): map<Id, Artifact> {
    map a | a in artifacts ::
      if artifacts[a].component in s && artifacts[a].cleanup != PendingDeletion then
        artifacts[a].(cleanup := PendingDeletion, expiresAt := Some(now))
      else artifacts[a]
  }

  function RowsAfter(rows: map<Id, Id>, s: set<Id>): map<Id, Id> {
    map r | r in rows && rows[r] !in s :: rows[r]
  }

  /** One step: an update or delete on one table, its rows found through the tables as they are. */
  function Apply(db: Db, step: Step, s: set<Id>, now: Time): Db {
    match step
    case Tasks => db.(tasks := TasksAfter(db, s, now))
    case Stages => db.(stages := StagesAfter(db, s, now))
    case Pipelines => db.(pipelines := PipelinesAfter(db, s, now))
    case Environments => db.(environments := RowsAfter(db.environments, s))
    case Configs => db.(configs := RowsAfter(db.configs, s))
    case Bindings => db.(bindings := RowsAfter(db.bindings, s))
    case Artifacts => db.(artifacts := ArtifactsAfter(db.artifacts, s, now))
    case Components => db.(components := ComponentsAfter(db, s, now))
  }

  function ApplyAll(db: Db, steps: seq<Step>, s: set<Id>, now: Time): Db {
    if steps == [] then db else Apply(ApplyAll(db, steps[..|steps| - 1], s, now), steps[|steps| - 1], s, now)
  }

  // ---- the order of the steps does not matter ----

  /** The tables with exactly the steps in `done` carried out, each computed from the tables at the start. */
  function Effect(db: Db, done: set<Step>, s: set<Id>, now: Time): Db {
    Db(db.services,
       if Components in done then ComponentsAfter(db, s, now) else db.components,
       if Pipelines in done then PipelinesAfter(db, s, now) else db.pipelines,
       if Stages in done then StagesAfter(db, s, now) else db.stages,
       if Tasks in done then TasksAfter(db, s, now) else db.tasks,
       if Artifacts in done then ArtifactsAfter(db.artifacts, s, now) else db.artifacts,
       if Environments in done then RowsAfter(db.environments, s) else db.environments,
       if Configs in done then RowsAfter(db.configs, s) else db.configs,
       if Bindings in done then RowsAfter(db.bindings, s) else db.bindings,
       db.configHistory)
  }

  /** What lies below a set of components is the same at every point of the cascade. */
  lemma BelowUnchanged(db: Db, done: set<Step>, s: set<Id>, now: Time, u: set<Id>)
    ensures var e := Effect(db, done, s, now);
      && (forall p :: PipelineBelow(e, u, p) <==> PipelineBelow(db, u, p))
      && (forall g :: StageBelow(e, u, g) <==> StageBelow(db, u, g))
      && (forall t :: TaskBelow(e, u, t) <==> TaskBelow(db, u, t))
  {
  }

  lemma BelowUnion(db: Db, s: set<Id>, u: set<Id>)
    ensures forall p :: PipelineBelow(db, s + u, p) <==> PipelineBelow(db, s, p) || PipelineBelow(db, u, p)
    ensures forall g :: StageBelow(db, s + u, g) <==> StageBelow(db, s, g) || StageBelow(db, u, g)
    ensures forall t :: TaskBelow(db, s + u, t) <==> TaskBelow(db, s, t) || TaskBelow(db, u, t)
  {
  }

  // Doing a table's step for `u` on top of a cascade for `s` is doing it for both at once.

  lemma TasksCompose(db: Db, done: set<Step>, s: set<Id>, u: set<Id>, now: Time)
    ensures TasksAfter(Effect(db, done, s, now), u, now) == TasksAfter(db, if Tasks in done then s + u else u, now)
  {
    BelowUnchanged(db, done, s, now, u);
    BelowUnion(db, s, u);
    hide StageBelow, PipelineBelow, TaskBelow;
  }

  lemma StagesCompose(db: Db, done: set<Step>, s: set<Id>, u: set<Id>, now: Time)
    ensures StagesAfter(Effect(db, done, s, now), u, now) == StagesAfter(db, if Stages in done then s + u else u, now)
  {
    BelowUnchanged(db, done, s, now, u);
    BelowUnion(db, s, u);
    hide PipelineBelow, StageBelow;
  }

  lemma PipelinesCompose(db: Db, done: set<Step>, s: set<Id>, u: set<Id>, now: Time)
    ensures PipelinesAfter(Effect(db, done, s, now), u, now) == PipelinesAfter(db, if Pipelines in done then s + u else u, now)
  {
    BelowUnchanged(db, done, s, now, u);
    BelowUnion(db, s, u);
    hide PipelineBelow;
  }

  lemma ComponentsCompose(db: Db, done: set<Step>, s: set<Id>, u: set<Id>, now: Time)
    ensures ComponentsAfter(Effect(db, done, s, now), u, now)
      == ComponentsAfter(db, if Components in done then s + u else u, now)
  {
  }

  lemma ArtifactsCompose(artifacts: map<Id, Artifact>, s: set<Id>, u: set<Id>, now: Time)
    ensures ArtifactsAfter(ArtifactsAfter(artifacts, s, now), u, now) == ArtifactsAfter(artifacts, s + u, now)
  {
  }

  lemma RowsCompose(rows: map<Id, Id>, s: set<Id>, u: set<Id>)
    ensures RowsAfter(RowsAfter(rows, s), u) == RowsAfter(rows, s + u)
  {
  }

  lemma StepExtendsEffect(db: Db, done: set<Step>, step: Step, s: set<Id>, now: Time)
    ensures Apply(Effect(db, done, s, now), step, s, now) == Effect(db, done + {step}, s, now)
  {
    hide TasksAfter, StagesAfter, PipelinesAfter, ComponentsAfter, ArtifactsAfter, RowsAfter;
    assert s + s == s;
    TasksCompose(db, done, s, s, now);
    StagesCompose(db, done, s, s, now);
    PipelinesCompose(db, done, s, s, now);
    ComponentsCompose(db, done, s, s, now);
    ArtifactsCompose(db.artifacts, s, s, now);
    RowsCompose(db.environments, s, s);
    RowsCompose(db.configs, s, s);
    RowsCompose(db.bindings, s, s);
  }

  function StepSet(steps: seq<Step>): set<Step> {
    set x | x in steps
  }

  /** However often and in whatever order steps run, only which ones ran matters. */
  lemma {:induction false} OnlyTheStepsMatter(db: Db, steps: seq<Step>, s: set<Id>, now: Time)
    ensures ApplyAll(db, steps, s, now) == Effect(db, StepSet(steps), s, now)
    decreases |steps|
  {
    if steps != [] {
      var front, last := steps[..|steps| - 1], steps[|steps| - 1];
      OnlyTheStepsMatter(db, front, s, now);
      StepExtendsEffect(db, StepSet(front), last, s, now);
      assert steps == front + [last];
      assert StepSet(steps) == StepSet(front) + {last};
      hide Effect, Apply;
    } else {
      assert StepSet(steps) == {};
    }
  }

  /** Any rearrangement of the cascade's steps leaves the same tables. */
  lemma OrderIrrelevant(db: Db, steps: seq<Step>, s: set<Id>, now: Time)
    requires multiset(steps) == multiset(STEPS)
    ensures ApplyAll(db, steps, s, now) == ApplyAll(db, STEPS, s, now)
  {
    OnlyTheStepsMatter(db, steps, s, now);
    OnlyTheStepsMatter(db, STEPS, s, now);
    hide ApplyAll, Effect;
    forall x
      ensures x in StepSet(steps) <==> x in StepSet(STEPS)
    {
      assert x in steps <==> x in multiset(steps);
      assert x in STEPS <==> x in multiset(STEPS);
    }
    assert StepSet(steps) == StepSet(STEPS);
  }

  // ---- whole cascades ----

  const ALL: set<Step> := {Tasks, Stages, Pipelines, Environments, Configs, Bindings, Artifacts, Components}

  function Cascaded(db: Db, s: set<Id>, now: Time): Db {
    Effect(db, ALL, s, now)
  }

  lemma StepsCascade(db: Db, s: set<Id>, now: Time)
    ensures ApplyAll(db, STEPS, s, now) == Cascaded(db, s, now)
  {
    OnlyTheStepsMatter(db, STEPS, s, now);
    hide ApplyAll, Effect;
    assert STEPS == [Tasks, Stages, Pipelines, Environments, Configs, Bindings, Artifacts, Components];
    assert StepSet(STEPS) == ALL;
  }

  /** Two cascades one after the other are one cascade over both sets of components. */
  lemma CascadesCompose(db: Db, s: set<Id>, u: set<Id>, now: Time)
    ensures Cascaded(Cascaded(db, s, now), u, now) == Cascaded(db, s + u, now)
  {
    hide TasksAfter, StagesAfter, PipelinesAfter, ComponentsAfter, ArtifactsAfter, RowsAfter;
    TasksCompose(db, ALL, s, u, now);
    StagesCompose(db, ALL, s, u, now);
    PipelinesCompose(db, ALL, s, u, now);
    ComponentsCompose(db, ALL, s, u, now);
    ArtifactsCompose(db.artifacts, s, u, now);
    RowsCompose(db.environments, s, u);
    RowsCompose(db.configs, s, u);
    RowsCompose(db.bindings, s, u);
  }

  /** The rows a component deletion starts from: the component itself, if it has a row. */
  function Just(db: Db, component: Id): set<Id> {
    if component in db.components then {component} else {}
  }

  /** The components of a service, those deleted earlier included. */
  function OfService(db: Db, service: Id): set<Id> {
    set c | c in db.components && db.components[c].service == service
  }

  function ComponentDeleted(db: Db, component: Id, now: Time): Db {
    Cascaded(db, Just(db, component), now)
  }

  function ServiceMarked(db: Db, service: Id, now: Time): Db {
    if service in db.services then
      db.(services := db.services[service := Service(Marked(db.services[service].deletedAt, now))])
    else db
  }

  function ServiceDeleted(db: Db, service: Id, now: Time): Db {
    ServiceMarked(Cascaded(db, OfService(db, service), now), service, now)
  }

  function ComponentsDeleted(db: Db, components: seq<Id>, now: Time): Db {
    if components == [] then db
    else ComponentDeleted(ComponentsDeleted(db, components[..|components| - 1], now), components[|components| - 1], now)
  }

  function Present(db: Db, components: seq<Id>): set<Id> {
    set c | c in components && c in db.components
  }

  lemma CascadeOfNothing(db: Db, now: Time)
    ensures Cascaded(db, {}, now) == db
  {
    assert TasksAfter(db, {}, now) == db.tasks && StagesAfter(db, {}, now) == db.stages
      && PipelinesAfter(db, {}, now) == db.pipelines;
    assert ComponentsAfter(db, {}, now) == db.components && ArtifactsAfter(db.artifacts, {}, now) == db.artifacts;
    assert RowsAfter(db.environments, {}) == db.environments && RowsAfter(db.configs, {}) == db.configs
      && RowsAfter(db.bindings, {}) == db.bindings;
  }

  lemma CascadeKeepsComponents(db: Db, s: set<Id>, now: Time)
    ensures Cascaded(db, s, now).components.Keys == db.components.Keys
  {
  }

  lemma {:induction false} ComponentsDeletedIsCascade(db: Db, components: seq<Id>, now: Time)
    ensures ComponentsDeleted(db, components, now) == Cascaded(db, Present(db, components), now)
    decreases |components|
  {
    if components == [] {
      CascadeOfNothing(db, now);
      assert Present(db, components) == {};
    } else {
      hide Effect;
      var front, last := components[..|components| - 1], components[|components| - 1];
      ComponentsDeletedIsCascade(db, front, now);
      var before := ComponentsDeleted(db, front, now);
      CascadeKeepsComponents(db, Present(db, front), now);
      assert Just(before, last) == Just(db, last);
      CascadesCompose(db, Present(db, front), Just(db, last), now);
      assert components == front + [last];
      assert Present(db, components) == Present(db, front) + Just(db, last);
    }
  }

  /** Deleting a service is deleting each of its components, in any order, and then marking the
      service. */
  lemma ServiceDeletionIsComponentwise(db: Db, service: Id, components: seq<Id>, now: Time)
    requires forall c :: c in components <==> c in OfService(db, service)
    ensures ServiceDeleted(db, service, now) == ServiceMarked(ComponentsDeleted(db, components, now), service, now)
  {
    ComponentsDeletedIsCascade(db, components, now);
    assert Present(db, components) == OfService(db, service);
    hide Cascaded;
  }

  /** Nothing live is left below the components, and everything else is as it was. */
  lemma CascadeLeavesNothingLive(db: Db, s: set<Id>, now: Time)
    ensures var e := Cascaded(db, s, now);
      && e.configHistory == db.configHistory && e.services == db.services
      && (forall c :: c in s && c in e.components ==> e.components[c].deletedAt.Some?)
      && (forall p :: PipelineBelow(db, s, p) ==> p in e.pipelines && e.pipelines[p].deletedAt.Some?)
      && (forall g :: StageBelow(db, s, g) ==> g in e.stages && e.stages[g].deletedAt.Some?)
      && (forall t :: TaskBelow(db, s, t) ==> t in e.tasks && e.tasks[t].deletedAt.Some?)
      && (forall r :: r in e.environments ==> e.environments[r] !in s)
      && (forall r :: r in e.configs ==> e.configs[r] !in s)
      && (forall r :: r in e.bindings ==> e.bindings[r] !in s)
      && (forall a :: a in e.artifacts && e.artifacts[a].component in s ==> e.artifacts[a].cleanup == PendingDeletion)
  {
  }

  /** Rows that do not lie below the components are untouched, and rows already deleted keep their
      time of deletion. */
  lemma CascadeTouchesNothingElse(db: Db, s: set<Id>, now: Time)
    ensures var e := Cascaded(db, s, now);
      && e.components.Keys == db.components.Keys && e.pipelines.Keys == db.pipelines.Keys
      && e.stages.Keys == db.stages.Keys && e.tasks.Keys == db.tasks.Keys && e.artifacts.Keys == db.artifacts.Keys
      && (forall c :: c in db.components && (c !in s || db.components[c].deletedAt.Some?) ==> e.components[c] == db.components[c])
      && (forall p :: p in db.pipelines && (!PipelineBelow(db, s, p) || db.pipelines[p].deletedAt.Some?)
            ==> e.pipelines[p] == db.pipelines[p])
      && (forall g :: g in db.stages && (!StageBelow(db, s, g) || db.stages[g].deletedAt.Some?)
            ==> e.stages[g] == db.stages[g])
      && (forall t :: t in db.tasks && (!TaskBelow(db, s, t) || db.tasks[t].deletedAt.Some?)
            ==> e.tasks[t] == db.tasks[t])
      && (forall r :: r in db.environments && db.environments[r] !in s
            ==> r in e.environments && e.environments[r] == db.environments[r])
      && (forall r :: r in db.configs && db.configs[r] !in s ==> r in e.configs && e.configs[r] == db.configs[r])
      && (forall r :: r in db.bindings && db.bindings[r] !in s ==> r in e.bindings && e.bindings[r] == db.bindings[r])
      && (forall a :: a in db.artifacts && db.artifacts[a].component !in s ==> e.artifacts[a] == db.artifacts[a])
      && (forall a :: a in db.artifacts ==>
            e.artifacts[a].component == db.artifacts[a].component && e.artifacts[a].storageKey == db.artifacts[a].storageKey)
  {
    hide PipelineBelow, StageBelow;
  }

  // ---- deletions, row by row ----

  /** A row that is deleted gets the time of the deletion, unless it had one already. */
  predicate Stamped(before: Option<Time>, after: Option<Time>, now: Time) {
    after == if before.Some? then before else Some(now)
  }

  /** From `a` to `e` exactly the rows below the components in `s` are deleted. */
  ghost predicate SubtreeGone(a: Db, e: Db, s: set<Id>, now: Time) {
    TreeGone(a, e, s, now) && DepthsGone(a, e, s, now) && RowsGone(a, e, s, now)
  }

  /** Components and pipelines get a time of deletion. */
  ghost predicate TreeGone(a: Db, e: Db, s: set<Id>, now: Time) {
    && e.components.Keys == a.components.Keys && e.pipelines.Keys == a.pipelines.Keys
    && (forall c :: c in a.components ==>
          var x, y := a.components[c], e.components[c];
          y.service == x.service && if c in s then Stamped(x.deletedAt, y.deletedAt, now) else y == x)
    && (forall p :: p in a.pipelines ==>
          var x, y := a.pipelines[p], e.pipelines[p];
          y.component == x.component && if x.component in s then Stamped(x.deletedAt, y.deletedAt, now) else y == x)
  }

  /** So do the stages and tasks of such pipelines. */
  ghost predicate DepthsGone(a: Db, e: Db, s: set<Id>, now: Time) {
    && e.stages.Keys == a.stages.Keys && e.tasks.Keys == a.tasks.Keys
    && (forall g :: g in a.stages ==>
          var x, y := a.stages[g], e.stages[g];
          y.pipeline == x.pipeline
          && if x.pipeline in a.pipelines && a.pipelines[x.pipeline].component in s
             then Stamped(x.deletedAt, y.deletedAt, now) else y == x)
    && (forall t :: t in a.tasks ==>
          var x, y := a.tasks[t], e.tasks[t];
          y.stage == x.stage
          && if x.stage in a.stages && a.stages[x.stage].pipeline in a.pipelines
                && a.pipelines[a.stages[x.stage].pipeline].component in s
             then Stamped(x.deletedAt, y.deletedAt, now) else y == x)
  }

  /** Environments, configuration and bindings go altogether, artifacts become due for collection at
      once unless they were waiting already, and the configuration history stays. */
  ghost predicate RowsGone(a: Db, e: Db, s: set<Id>, now: Time) {
    && (forall r :: r in e.environments <==> r in a.environments && a.environments[r] !in s)
    && (forall r :: r in e.environments ==> e.environments[r] == a.environments[r])
    && (forall r :: r in e.configs <==> r in a.configs && a.configs[r] !in s)
    && (forall r :: r in e.configs ==> e.configs[r] == a.configs[r])
    && (forall r :: r in e.bindings <==> r in a.bindings && a.bindings[r] !in s)
    && (forall r :: r in e.bindings ==> e.bindings[r] == a.bindings[r])
    && e.artifacts.Keys == a.artifacts.Keys
    && (forall x :: x in a.artifacts ==>
          e.artifacts[x] ==
            if a.artifacts[x].component in s && a.artifacts[x].cleanup == Active then
              Artifact(a.artifacts[x].component, a.artifacts[x].storageKey, Some(now), PendingDeletion)
            else a.artifacts[x])
    && e.configHistory == a.configHistory
  }

  /** A cascade deletes exactly the rows below its components. */
  lemma CascadeIsExact(db: Db, s: set<Id>, now: Time)
    ensures SubtreeGone(db, Cascaded(db, s, now), s, now)
    ensures Cascaded(db, s, now).services == db.services
  {
    hide TasksAfter, StagesAfter, PipelinesAfter, ComponentsAfter, ArtifactsAfter, RowsAfter, TreeGone, DepthsGone, RowsGone;
    TreeIsExact(db, s, now);
    DepthsAreExact(db, s, now);
    RowsAreExact(db, s, now);
  }

  lemma TreeIsExact(db: Db, s: set<Id>, now: Time)
    ensures TreeGone(db, Cascaded(db, s, now), s, now)
  {
    hide TasksAfter, StagesAfter, ArtifactsAfter, RowsAfter;
  }

  lemma DepthsAreExact(db: Db, s: set<Id>, now: Time)
    ensures DepthsGone(db, Cascaded(db, s, now), s, now)
  {
    hide PipelinesAfter, ComponentsAfter, ArtifactsAfter, RowsAfter;
  }

  lemma RowsAreExact(db: Db, s: set<Id>, now: Time)
    ensures RowsGone(db, Cascaded(db, s, now), s, now)
  {
    hide TasksAfter, StagesAfter, PipelinesAfter, ComponentsAfter;
  }

  /** The component and what lies below it are deleted; nothing is if it has no row. */
  ghost predicate ComponentGone(a: Db, e: Db, component: Id, now: Time) {
    && SubtreeGone(a, e, if component in a.components then {component} else {}, now)
    && e.services == a.services
  }

  /** The service is deleted, and so are the components that name it and what lies below them. */
  ghost predicate ServiceGone(a: Db, e: Db, service: Id, now: Time) {
    && SubtreeGone(a, e, (set c | c in a.components && a.components[c].service == service), now)
    && e.services.Keys == a.services.Keys
    && (forall x :: x in a.services ==>
          if x == service then Stamped(a.services[x].deletedAt, e.services[x].deletedAt, now)
          else e.services[x] == a.services[x])
  }

  lemma DeletedComponentIsGone(db: Db, component: Id, now: Time)
    ensures ComponentGone(db, ComponentDeleted(db, component, now), component, now)
  {
    hide SubtreeGone, Cascaded;
    CascadeIsExact(db, Just(db, component), now);
  }

  lemma DeletedServiceIsGone(db: Db, service: Id, now: Time)
    ensures ServiceGone(db, ServiceDeleted(db, service, now), service, now)
  {
    hide SubtreeGone, Cascaded;
    var s := OfService(db, service);
    CascadeIsExact(db, s, now);
    MarkingKeepsSubtree(db, Cascaded(db, s, now), s, service, now);
    assert s == (set c | c in db.components && db.components[c].service == service);
  }

  lemma MarkingKeepsSubtree(a: Db, e: Db, s: set<Id>, service: Id, now: Time)
    requires SubtreeGone(a, e, s, now)
    ensures SubtreeGone(a, ServiceMarked(e, service, now), s, now)
  {
  }

  // ---- the deleter ----

  /** How many steps run before the first one that fails. */
  function Reached(steps: seq<Step>, failing: set<Step>): (n: nat)
    ensures n <= |steps|
  {
    if steps == [] || steps[0] in failing then 0 else 1 + Reached(steps[1..], failing)
  }

  lemma {:induction false} ReachedIs(steps: seq<Step>, failing: set<Step>, i: nat)
    requires i <= |steps| && (forall j :: 0 <= j < i ==> steps[j] !in failing) && (i < |steps| ==> steps[i] in failing)
    ensures Reached(steps, failing) == i
  {
    if i > 0 {
      ReachedIs(steps[1..], failing, i - 1);
    }
  }

  class Deleter {
    var db: Db

    constructor (db: Db)
      ensures this.db == db
    {
      this.db := db;
    }

    /** Runs the steps in order on the components the scope selects when each step runs; stops at
        the first failure, with the steps before it done. */
    method DeleteComponents(scope: Db -> set<Id>, now: Time, failing: set<Step>) returns (ok: bool)
      requires forall s: set<Id>, done :: s == scope(db) ==> scope(Effect(db, done, s, now)) == s
      modifies this
      ensures ok <==> failing * ALL == {}
      ensures db == ApplyAll(old(db), STEPS[..Reached(STEPS, failing)], scope(old(db)), now)
      ensures ok ==> db == Cascaded(old(db), scope(old(db)), now)
    {
      hide Effect, Apply, ApplyAll, Reached, Cascaded;
      ghost var s := scope(db);
      NothingApplied(db, s, now);
      AllStepsListed();
      var i := 0;
      while i < |STEPS|
        invariant 0 <= i <= |STEPS|
        invariant forall j :: 0 <= j < i ==> STEPS[j] !in failing
        invariant db == ApplyAll(old(db), STEPS[..i], s, now)
      {
        if STEPS[i] in failing {
          ReachedIs(STEPS, failing, i);
          assert STEPS[i] in failing * ALL;
          return false;
        }
        OnlyTheStepsMatter(old(db), STEPS[..i], s, now);
        OneMoreStep(old(db), STEPS, i, s, now);
        db := Apply(db, STEPS[i], scope(db), now);
        i := i + 1;
      }
      ReachedIs(STEPS, failing, |STEPS|);
      assert STEPS[..|STEPS|] == STEPS;
      StepsCascade(old(db), s, now);
      ok := true;
    }

    /** Deletes a component and everything below it; if the guard or a step fails, nothing changes. */
    method DeleteComponentSubtree(component: Id, guardOk: bool, now: Time, failing: set<Step>) returns (ok: bool)
      modifies this
      ensures ok <==> guardOk && failing * ALL == {}
      ensures db == if ok then ComponentDeleted(old(db), component, now) else old(db)
      ensures ok ==> ComponentGone(old(db), db, component, now)
    {
      hide SubtreeGone;
      DeletedComponentIsGone(db, component, now);
      var before := db;
      if !guardOk {
        return false;
      }
      ok := DeleteComponents((d: Db) => Just(d, component), now, failing);
      if !ok {
        db := before;
      }
    }

    /** Deletes a service, its components and everything below them, all or nothing. */
    method DeleteServiceSubtree(service: Id, guardOk: bool, now: Time, failing: set<Step>, markFails: bool) returns (ok: bool)
      modifies this
      ensures ok <==> guardOk && failing * ALL == {} && !markFails
      ensures db == if ok then ServiceDeleted(old(db), service, now) else old(db)
      ensures ok ==> ServiceGone(old(db), db, service, now)
    {
      hide SubtreeGone;
      DeletedServiceIsGone(db, service, now);
      var before := db;
      if !guardOk {
        return false;
      }
      ok := DeleteComponents((d: Db) => OfService(d, service), now, failing);
      if ok && !markFails {
        db := ServiceMarked(db, service, now);
      } else {
        db := before;
        ok := false;
      }
    }
  }

  lemma NothingApplied(db: Db, s: set<Id>, now: Time)
    ensures ApplyAll(db, STEPS[..0], s, now) == db
  {
  }

  lemma OneMoreStep(db: Db, steps: seq<Step>, i: nat, s: set<Id>, now: Time)
    requires i < |steps|
    ensures ApplyAll(db, steps[..i + 1], s, now) == Apply(ApplyAll(db, steps[..i], s, now), steps[i], s, now)
  {
    hide Apply;
    assert steps[..i + 1][..i] == steps[..i];
  }

  lemma AllStepsListed()
    ensures forall x: Step :: x in STEPS && x in ALL
  {
    forall x: Step
      ensures x in STEPS && x in ALL
    {
      var i := match x
        case Tasks => 0
        case Stages => 1
        case Pipelines => 2
        case Environments => 3
        case Configs => 4
        case Bindings => 5
        case Artifacts => 6
        case Components => 7;
      assert STEPS[i] == x && x in ALL;
    }
  }
}
