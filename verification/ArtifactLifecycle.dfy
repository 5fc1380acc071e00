/** Cascades, collector passes, registrations, uploads and user deletions interleaved call by call
    on one artifact table and one object store. */
module ArtifactLifecycle {
  import opened Text
  import opened Cascade
  import opened ArtifactGC

  /** A row a pass has read and not finished with. */
  datatype Job = Job(id: Id, key: string)

  /** How far the pass is with its first job. */
  datatype Phase = Waiting | Cleared | Refused

  /** Both tables and the store, the time, whether there is a store, the identifiers given out, and
      what the pass under way has still to do. */
  datatype World = World(db: Db, objects: set<string>, clock: Time, configured: bool, ids: set<Id>, jobs: seq<Job>, phase: Phase)

  function FilesOf(w: World): Files {
    Files(w.db.artifacts, w.objects)
  }

  function WithFiles(w: World, f: Files): World {
    w.(db := w.db.(artifacts := f.rows), objects := f.objects)
  }

  /** The last four are the calls of a pass: reading the expired rows, and for each of them removing
      the object and then dropping the row, or marking it when the object was not removed. */
  datatype Event =
    | Register(id: Id, artifact: Artifact)
    | Upload(key: string)
    | DeleteComponent(component: Id)
    | DeleteService(service: Id)
    | DeleteArtifact(id: Id, removal: StoreCall)
    | ListExpired(limit: nat, batch: seq<Id>)
    | RemoveObject(removal: StoreCall)
    | MarkPending(fails: bool)
    | DropRow(fails: bool)

  /** A user deletion drops the row first and the object after it, the other way round from the collector. */
  function ArtifactDeleted(f: Files, id: Id, configured: bool, removal: StoreCall): Files {
    if id in f.rows then
      Files(f.rows - {id},
            if configured && removal != FailedKept then f.objects - {f.rows[id].storageKey} else f.objects)
    else f
  }

  function JobsOf(rows: map<Id, Artifact>, batch: seq<Id>): (jobs: seq<Job>)
    requires forall id :: id in batch ==> id in rows
    ensures |jobs| == |batch| && forall i :: 0 <= i < |batch| ==> jobs[i] == Job(batch[i], rows[batch[i]].storageKey)
  {
    seq(|batch|, i requires 0 <= i < |batch| => Job(batch[i], rows[batch[i]].storageKey))
  }

  function Marked(rows: map<Id, Artifact>, id: Id): map<Id, Artifact> {
    if id in rows then rows[id := rows[id].(cleanup := PendingDeletion)] else rows
  }

  function NextJob(w: World, rows: map<Id, Artifact>): World
    requires w.jobs != []
  {
    w.(db := w.db.(artifacts := rows), jobs := w.jobs[1..], phase := Waiting)
  }

  /** What an event makes of the world, apart from the time. */
  ghost predicate Does(w: World, e: Event, now: Time, v: World) {
    match e
    case Register(id, a) =>
      id !in w.ids && a.cleanup == Active
      && v == w.(db := w.db.(artifacts := w.db.artifacts[id := a]), ids := w.ids + {id})
    case Upload(key) => v == w.(objects := w.objects + {key})
    case DeleteComponent(c) => v == w.(db := ComponentDeleted(w.db, c, now))
    case DeleteService(s) => v == w.(db := ServiceDeleted(w.db, s, now))
    case DeleteArtifact(id, removal) => v == WithFiles(w, ArtifactDeleted(FilesOf(w), id, w.configured, removal))
    case ListExpired(limit, batch) =>
      w.jobs == [] && IsBatch(w.db.artifacts, now, limit, batch)
      && v == w.(jobs := JobsOf(w.db.artifacts, batch), phase := Waiting)
    case RemoveObject(removal) =>
      w.jobs != [] && w.phase == Waiting && w.configured
      && v == w.(objects := if removal == FailedKept then w.objects else w.objects - {w.jobs[0].key},
                 phase := if removal == Removed then Cleared else Refused)
    case MarkPending(fails) =>
      w.jobs != [] && w.phase == Refused
      && v == NextJob(w, if fails then w.db.artifacts else Marked(w.db.artifacts, w.jobs[0].id))
    case DropRow(fails) =>
      w.jobs != [] && w.phase == (if w.configured then Cleared else Waiting)
      && v == NextJob(w, if fails then w.db.artifacts else w.db.artifacts - {w.jobs[0].id})
  }

  /** One event at time `now`, not before the previous one. */
  ghost predicate Next(w: World, e: Event, now: Time, v: World) {
    w.clock <= now && Does(w.(clock := now), e, now, v)
  }

  // ---- what every event keeps ----

  /** Every row hidden from the listings has an expiry, and it is not in the future. */
  ghost predicate HiddenIsDue(w: World) {
    forall a :: a in w.db.artifacts && w.db.artifacts[a].cleanup == PendingDeletion ==> Due(w, w.db.artifacts[a])
  }

  predicate Due(w: World, a: Artifact) {
    a.expiresAt.Some? && a.expiresAt.value <= w.clock
  }

  /** A job is about the row it was read from, as long as that row exists. */
  predicate JobMatches(w: World, j: Job) {
    && j.id in w.ids
    && (j.id in w.db.artifacts ==> w.db.artifacts[j.id].storageKey == j.key && Due(w, w.db.artifacts[j.id]))
  }

  ghost predicate JobsMatch(w: World) {
    && (forall id :: id in w.db.artifacts ==> id in w.ids)
    && forall j :: j in w.jobs ==> JobMatches(w, j)
  }

  ghost predicate Orderly(w: World) {
    HiddenIsDue(w) && JobsMatch(w)
  }

  lemma CascadeKeepsOrder(w: World, s: set<Id>, now: Time)
    requires Orderly(w) && w.clock <= now
    ensures Orderly(w.(db := Cascaded(w.db, s, now), clock := now))
  {
    CascadeTouchesNothingElse(w.db, s, now);
    CascadeDates(w.db, s, now);
    hide Cascaded;
  }

  lemma CascadeDates(db: Db, s: set<Id>, now: Time)
    ensures var after := Cascaded(db, s, now).artifacts;
      forall a :: a in after ==> after[a] == db.artifacts[a] || (after[a].cleanup == PendingDeletion && after[a].expiresAt == Some(now))
  {
  }

  lemma ListingKeepsOrder(w: World, now: Time, limit: nat, batch: seq<Id>)
    requires Orderly(w) && w.clock <= now && IsBatch(w.db.artifacts, now, limit, batch)
    ensures Orderly(w.(clock := now, jobs := JobsOf(w.db.artifacts, batch), phase := Waiting))
  {
    var jobs := JobsOf(w.db.artifacts, batch);
    forall j | j in jobs
      ensures j.id in w.db.artifacts && w.db.artifacts[j.id].storageKey == j.key && ExpiredRow(w.db.artifacts[j.id], now)
    {
      var i :| 0 <= i < |jobs| && jobs[i] == j;
      assert batch[i] in Expired(w.db.artifacts, now);
    }
    hide IsBatch;
  }

  /** Rows may go, and those that are due may be marked; jobs may be finished; time may pass. */
  ghost predicate Winds(w: World, v: World) {
    && w.clock <= v.clock && v.ids == w.ids
    && (forall j :: j in v.jobs ==> j in w.jobs)
    && forall id :: id in v.db.artifacts ==> id in w.db.artifacts && RowWinds(w, w.db.artifacts[id], v.db.artifacts[id])
  }

  predicate RowWinds(w: World, a: Artifact, b: Artifact) {
    a.storageKey == b.storageKey && a.expiresAt == b.expiresAt && (a.cleanup == b.cleanup || Due(w, a))
  }

  lemma WindingKeepsOrder(w: World, v: World)
    requires Orderly(w) && Winds(w, v)
    ensures Orderly(v)
  {
    assert forall j :: j in v.jobs ==> JobMatches(w, j);
  }

  lemma RegisteringKeepsOrder(w: World, id: Id, a: Artifact, now: Time)
    requires Orderly(w) && w.clock <= now && id !in w.ids && a.cleanup == Active
    ensures Orderly(w.(clock := now, db := w.db.(artifacts := w.db.artifacts[id := a]), ids := w.ids + {id}))
  {
    assert forall j :: j in w.jobs ==> JobMatches(w, j);
  }

  lemma JobDoneWinds(w: World, rows: map<Id, Artifact>, now: Time)
    requires Orderly(w) && w.jobs != [] && w.clock <= now
    requires rows == w.db.artifacts || rows == Marked(w.db.artifacts, w.jobs[0].id) || rows == w.db.artifacts - {w.jobs[0].id}
    ensures Winds(w, NextJob(w.(clock := now), rows))
  {
    assert w.jobs[0] in w.jobs && JobMatches(w, w.jobs[0]);
  }

  lemma ServiceDeletionIsCascade(w: World, service: Id, now: Time)
    requires Orderly(w.(db := Cascaded(w.db, OfService(w.db, service), now), clock := now))
    ensures Orderly(w.(db := ServiceDeleted(w.db, service, now), clock := now))
  {
    hide Cascaded;
  }

  lemma NextKeepsOrder(w: World, e: Event, now: Time, v: World)
    requires Orderly(w) && Next(w, e, now, v)
    ensures Orderly(v)
  {
    hide Orderly, IsBatch, Cascaded, Marked, JobsOf, NextJob;
    match e
    case Register(id, a) => RegisteringKeepsOrder(w, id, a, now);
    case Upload(_) => WindingKeepsOrder(w, v);
    case DeleteComponent(c) => CascadeKeepsOrder(w, Just(w.db, c), now);
    case DeleteService(s) =>
      CascadeKeepsOrder(w, OfService(w.db, s), now);
      ServiceDeletionIsCascade(w, s, now);
    case DeleteArtifact(_, _) => WindingKeepsOrder(w, v);
    case ListExpired(limit, batch) => ListingKeepsOrder(w, now, limit, batch);
    case RemoveObject(_) => WindingKeepsOrder(w, v);
    case MarkPending(_) =>
      JobDoneWinds(w, if e.fails then w.db.artifacts else Marked(w.db.artifacts, w.jobs[0].id), now);
      WindingKeepsOrder(w, v);
    case DropRow(_) =>
      JobDoneWinds(w, if e.fails then w.db.artifacts else w.db.artifacts - {w.jobs[0].id}, now);
      WindingKeepsOrder(w, v);
  }

  // ---- runs ----

  datatype Moment = Moment(event: Event, now: Time, world: World)

  ghost predicate Run(w: World, ms: seq<Moment>)
    decreases |ms|
  {
    ms != [] ==> Next(w, ms[0].event, ms[0].now, ms[0].world) && Run(ms[0].world, ms[1..])
  }

  ghost function Last(w: World, ms: seq<Moment>): World
    decreases |ms|
  {
    if ms == [] then w else Last(ms[0].world, ms[1..])
  }

  lemma {:induction false} RunKeepsOrder(w: World, ms: seq<Moment>)
    requires Orderly(w) && Run(w, ms)
    ensures Orderly(Last(w, ms)) && w.clock <= Last(w, ms).clock
    decreases |ms|
  {
    hide Orderly, Cascaded, IsBatch;
    if ms != [] {
      NextKeepsOrder(w, ms[0].event, ms[0].now, ms[0].world);
      RunKeepsOrder(ms[0].world, ms[1..]);
    }
  }

  /** Over every interleaving of the calls: a row that a listing hides is a candidate of every later
      pass. No row becomes invisible and uncollectable. */
  lemma HiddenStaysCollectable(w: World, ms: seq<Moment>)
    requires Orderly(w) && Run(w, ms)
    ensures var rows := Last(w, ms).db.artifacts;
      forall a, now :: a in rows && now > Last(w, ms).clock && a !in Listed(rows, rows[a].component) ==>
        a in Expired(rows, now)
  {
    RunKeepsOrder(w, ms);
    hide Run, Last;
  }

  /** Whatever came before, enough passes after it clear every hidden row outside `bad`, when calls
      fail for rows in `bad` only and fewer of those are due than the limit. */
  lemma HiddenIsEventuallyCollected(w: World, ms: seq<Moment>, configured: bool, limit: nat, since: Time,
                                    bad: set<Id>, ps: seq<Pass>, b: nat)
    requires Orderly(w) && Run(w, ms) && Last(w, ms).clock < since
    requires Passes(FilesOf(Last(w, ms)), configured, limit, since, bad, ps)
    requires |Expired(Last(w, ms).db.artifacts, since) * bad| <= b < limit
    requires |Expired(Last(w, ms).db.artifacts, since) - bad| <= |ps| * (limit - b)
    ensures var rows := Last(w, ms).db.artifacts;
      forall a :: a in rows && rows[a].cleanup == PendingDeletion && a !in bad ==>
        a !in AfterPasses(FilesOf(Last(w, ms)), configured, ps).rows
  {
    RunKeepsOrder(w, ms);
    var f := FilesOf(Last(w, ms));
    hide Run, Last, Passes, AfterPasses, JobsMatch;
    PassesDrainOthers(f, configured, limit, since, bad, ps, b);
    forall a | a in f.rows && f.rows[a].cleanup == PendingDeletion && a !in bad
      ensures a !in AfterPasses(f, configured, ps).rows
    {
      RowsOnlyShrink(f, configured, limit, since, bad, ps, a);
      var rows := AfterPasses(f, configured, ps).rows;
      assert a in rows ==> a in Expired(rows, since);
    }
  }

  lemma {:induction false} RowsOnlyShrink(f: Files, configured: bool, limit: nat, since: Time, bad: set<Id>, ps: seq<Pass>, a: Id)
    requires Passes(f, configured, limit, since, bad, ps)
    ensures var rows := AfterPasses(f, configured, ps).rows;
      a in rows ==> a in f.rows && rows[a].expiresAt == f.rows[a].expiresAt
    decreases |ps|
  {
    if ps != [] {
      RowsOnlyShrink(Passed(f, configured, ps[0].batch, ps[0].calls), configured, limit, since, bad, ps[1..], a);
      PassedRows(f, configured, ps[0].batch, ps[0].calls, a);
    }
  }

  /** Deleting a component and then collecting leaves none of its artifacts behind, but those in `bad`. */
  lemma DeletedComponentIsCleared(w: World, component: Id, now: Time, v: World, configured: bool, limit: nat,
                                  since: Time, bad: set<Id>, ps: seq<Pass>, b: nat)
    requires Orderly(w) && Next(w, DeleteComponent(component), now, v) && component in w.db.components && now < since
    requires Passes(FilesOf(v), configured, limit, since, bad, ps)
    requires |Expired(v.db.artifacts, since) * bad| <= b < limit
    requires |Expired(v.db.artifacts, since) - bad| <= |ps| * (limit - b)
    ensures forall a :: a in w.db.artifacts && w.db.artifacts[a].component == component && a !in bad ==>
      a !in AfterPasses(FilesOf(v), configured, ps).rows
  {
    var ms := [Moment(DeleteComponent(component), now, v)];
    assert ms[1..] == [];
    CascadeLeavesNothingLive(w.db, Just(w.db, component), now);
    CascadeTouchesNothingElse(w.db, Just(w.db, component), now);
    hide Passes, AfterPasses, Expired, Cascaded;
    HiddenIsEventuallyCollected(w, ms, configured, limit, since, bad, ps, b);
  }

  // ---- a pass nothing comes between ----

  lemma {:induction false} RunsJoin(w: World, ms: seq<Moment>, ns: seq<Moment>)
    requires Run(w, ms) && Run(Last(w, ms), ns)
    ensures Run(w, ms + ns) && Last(w, ms + ns) == Last(Last(w, ms), ns)
    decreases |ms|
  {
    hide Next;
    if ms == [] {
      assert ms + ns == ns;
    } else {
      assert (ms + ns)[1..] == ms[1..] + ns;
      RunsJoin(ms[0].world, ms[1..], ns);
    }
  }

  lemma RunOfOne(w: World, e: Event, now: Time, v: World)
    requires Next(w, e, now, v)
    ensures Run(w, [Moment(e, now, v)]) && Last(w, [Moment(e, now, v)]) == v
  {
    hide Next;
    assert [Moment(e, now, v)][1..] == [];
  }

  lemma RunOfTwo(w: World, e: Event, now: Time, v: World, e2: Event, v2: World)
    requires Next(w, e, now, v) && Next(v, e2, now, v2)
    ensures Run(w, [Moment(e, now, v), Moment(e2, now, v2)]) && Last(w, [Moment(e, now, v), Moment(e2, now, v2)]) == v2
  {
    hide Next;
    RunOfOne(v, e2, now, v2);
    assert [Moment(e, now, v), Moment(e2, now, v2)][1..] == [Moment(e2, now, v2)];
  }

  /** The calls of a pass for one row do to both tables what the collector does to that row. */
  lemma JobRun(w: World, c: RowCalls) returns (ms: seq<Moment>)
    requires w.jobs != [] && w.phase == Waiting
    requires w.jobs[0].id in w.db.artifacts && w.db.artifacts[w.jobs[0].id].storageKey == w.jobs[0].key
    ensures Run(w, ms)
    ensures Last(w, ms) == WithFiles(w, Collected(FilesOf(w), w.configured, w.jobs[0].id, c)).(jobs := w.jobs[1..])
  {
    hide Run, Last;
    var last := WithFiles(w, Collected(FilesOf(w), w.configured, w.jobs[0].id, c)).(jobs := w.jobs[1..]);
    if w.configured {
      var v := w.(objects := if c.removal == FailedKept then w.objects else w.objects - {w.jobs[0].key},
                  phase := if c.removal == Removed then Cleared else Refused);
      var e := if c.removal == Removed then DropRow(c.rowFails) else MarkPending(c.markFails);
      RunOfTwo(w, RemoveObject(c.removal), w.clock, v, e, last);
      ms := [Moment(RemoveObject(c.removal), w.clock, v), Moment(e, w.clock, last)];
    } else {
      RunOfOne(w, DropRow(c.rowFails), w.clock, last);
      ms := [Moment(DropRow(c.rowFails), w.clock, last)];
    }
  }

  /** What is left of a pass under way, when nothing comes between its calls. */
  lemma {:induction false} JobsRun(w: World, f: Files, now: Time, limit: nat, batch: seq<Id>, i: nat, calls: Id -> RowCalls)
    returns (ms: seq<Moment>)
    requires IsBatch(f.rows, now, limit, batch) && i <= |batch| && w.phase == Waiting
    requires (forall id :: id in batch ==> id in f.rows) && w.jobs == JobsOf(f.rows, batch)[i..]
    requires FilesOf(w) == Passed(f, w.configured, batch[..i], calls)
    ensures Run(w, ms) && Last(w, ms).jobs == []
    ensures FilesOf(Last(w, ms)) == Passed(f, w.configured, batch, calls)
    decreases |batch| - i
  {
    hide Run, IsBatch, Passed, Collected;
    if i == |batch| {
      ms := NoMoments(w);
      assert batch[..i] == batch;
    } else {
      NextInBatch(f, w.configured, now, limit, batch, i, calls);
      var first := JobRun(w, calls(batch[i]));
      var v := Last(w, first);
      var rest := JobsRun(v, f, now, limit, batch, i + 1, calls);
      RunsJoin(w, first, rest);
      ms := first + rest;
    }
  }

  lemma NoMoments(w: World) returns (ms: seq<Moment>)
    ensures Run(w, ms) && Last(w, ms) == w
  {
    ms := [];
  }

  /** A pass nothing comes between is one of the runs, and ends as the collector's pass does. */
  lemma PassIsARun(w: World, now: Time, limit: nat, batch: seq<Id>, calls: Id -> RowCalls) returns (ms: seq<Moment>)
    requires w.jobs == [] && w.clock <= now && IsBatch(w.db.artifacts, now, limit, batch)
    ensures Run(w, ms) && Last(w, ms).jobs == []
    ensures FilesOf(Last(w, ms)) == Passed(FilesOf(w), w.configured, batch, calls)
  {
    assert forall id :: id in batch ==> id in Expired(w.db.artifacts, now);
    var v := w.(clock := now, jobs := JobsOf(w.db.artifacts, batch), phase := Waiting);
    var e := ListExpired(limit, batch);
    assert Next(w, e, now, v);
    hide Run, Last, IsBatch, Next;
    RunOfOne(w, e, now, v);
    assert batch[..0] == [] && JobsOf(w.db.artifacts, batch)[0..] == JobsOf(w.db.artifacts, batch);
    var rest := JobsRun(v, FilesOf(w), now, limit, batch, 0, calls);
    RunsJoin(w, [Moment(e, now, v)], rest);
    ms := [Moment(e, now, v)] + rest;
  }

  // ---- orphans over runs ----

  /** A user deletion leaves an orphan exactly when the object survives and no other row has its key. */
  lemma DeletionOrphansIff(f: Files, id: Id, configured: bool, removal: StoreCall)
    requires id in f.rows && f.rows[id].storageKey != ""
    ensures f.rows[id].storageKey in Orphans(ArtifactDeleted(f, id, configured, removal)) <==>
      && f.rows[id].storageKey in f.objects && (!configured || removal == FailedKept)
      && forall other :: other in f.rows && other != id ==> f.rows[other].storageKey != f.rows[id].storageKey
  {
    var g := ArtifactDeleted(f, id, configured, removal);
    assert forall other :: other in g.rows <==> other in f.rows && other != id;
  }

  /** An upload leaves its object an orphan exactly when no row has its key yet; registering a row gives
      its object a row, and leaves all other orphans what they are. */
  lemma UploadAndRegister(w: World, e: Event, now: Time, v: World, k: string)
    requires Orderly(w) && Next(w, e, now, v)
    ensures e.Upload? ==>
      (k in Orphans(FilesOf(v)) <==>
         k in Orphans(FilesOf(w))
         || (k == e.key && k != "" && forall id :: id in w.db.artifacts ==> w.db.artifacts[id].storageKey != k))
    ensures e.Register? ==> (k in Orphans(FilesOf(v)) <==> k in Orphans(FilesOf(w)) && k != e.artifact.storageKey)
  {
    if e.Register? {
      assert e.id !in w.db.artifacts;
      assert forall id :: id in v.db.artifacts <==> id in w.db.artifacts || id == e.id;
    }
  }

  /** The keys an event may leave without a row: the object it uploads, the object a user deletion
      does not remove, and the object of a row that is dropped without a store. */
  ghost function Loosened(w: World, e: Event): set<string> {
    match e
    case Upload(key) => {key}
    case DeleteArtifact(id, removal) =>
      if id in w.db.artifacts && (!w.configured || removal == FailedKept) then {w.db.artifacts[id].storageKey} else {}
    case DropRow(fails) => if w.configured || fails || w.jobs == [] then {} else {w.jobs[0].key}
    case _ => {}
  }

  /** The object of the job under way was removed, unless its key has been loosened since. */
  ghost predicate HeadIsGone(w: World, loose: set<string>) {
    w.jobs != [] && w.phase == Cleared ==> w.jobs[0].key !in w.objects || w.jobs[0].key in loose
  }

  lemma CascadeLoosensNothing(f: Files, db: Db, s: set<Id>, now: Time)
    requires f.rows == db.artifacts
    ensures Orphans(Files(Cascaded(db, s, now).artifacts, f.objects)) == Orphans(f)
  {
    CascadeTouchesNothingElse(db, s, now);
    hide Cascaded;
  }

  lemma DeletionLoosens(f: Files, id: Id, configured: bool, removal: StoreCall, k: string)
    requires k in Orphans(ArtifactDeleted(f, id, configured, removal)) && id in f.rows
    ensures k in Orphans(f) || (k == f.rows[id].storageKey && (!configured || removal == FailedKept))
  {
    if k == f.rows[id].storageKey {
      DeletionOrphansIff(f, id, configured, removal);
    } else {
      assert forall other :: other in f.rows && other != id ==> other in ArtifactDeleted(f, id, configured, removal).rows;
    }
  }

  lemma DeletionsLoosen(f: Files, id: Id, configured: bool, removal: StoreCall)
    ensures Orphans(ArtifactDeleted(f, id, configured, removal)) <=
      Orphans(f) + if id in f.rows && (!configured || removal == FailedKept) then {f.rows[id].storageKey} else {}
  {
    hide Orphans;
    if id in f.rows {
      forall k | k in Orphans(ArtifactDeleted(f, id, configured, removal))
        ensures k in Orphans(f) || (k == f.rows[id].storageKey && (!configured || removal == FailedKept))
      {
        DeletionLoosens(f, id, configured, removal, k);
      }
    }
  }

  lemma RegisteringLoosensNothing(f: Files, id: Id, a: Artifact)
    requires id !in f.rows
    ensures Orphans(Files(f.rows[id := a], f.objects)) <= Orphans(f)
  {
    assert forall other :: other in f.rows ==> other in f.rows[id := a] && f.rows[id := a][other] == f.rows[other];
  }

  lemma UploadLoosens(f: Files, key: string)
    ensures Orphans(Files(f.rows, f.objects + {key})) <= Orphans(f) + {key}
  {
  }

  lemma RemovalLoosensNothing(f: Files, objects: set<string>)
    requires objects <= f.objects
    ensures Orphans(Files(f.rows, objects)) <= Orphans(f)
  {
  }

  lemma MarkingLoosensNothing(f: Files, id: Id)
    ensures Orphans(Files(Marked(f.rows, id), f.objects)) == Orphans(f)
  {
    var marked := Marked(f.rows, id);
    assert forall other :: other in marked <==> other in f.rows;
    assert forall other :: other in f.rows ==> marked[other].storageKey == f.rows[other].storageKey;
  }

  lemma DroppingLoosens(f: Files, id: Id, key: string)
    requires id in f.rows ==> f.rows[id].storageKey == key
    ensures Orphans(Files(f.rows - {id}, f.objects)) <= Orphans(f) + (if key in f.objects then {key} else {})
  {
    var rows := f.rows - {id};
    forall k | k in Orphans(Files(rows, f.objects)) && k != key
      ensures k in Orphans(f)
    {
      assert forall other :: other in f.rows && other != id ==> other in rows;
    }
  }

  /** No event leaves an orphan that was not one and that neither it nor an earlier event loosened. */
  lemma NextLoosensOnly(w: World, e: Event, now: Time, v: World, loose: set<string>)
    requires Orderly(w) && Next(w, e, now, v) && Orphans(FilesOf(w)) <= loose && HeadIsGone(w, loose)
    ensures Orphans(FilesOf(v)) <= loose + Loosened(w, e) && HeadIsGone(v, loose + Loosened(w, e))
  {
    hide Cascaded, Orphans, ArtifactDeleted, IsBatch, HiddenIsDue, Marked;
    var f := FilesOf(w);
    match e
    case Register(id, a) => RegisteringLoosensNothing(f, id, a);
    case Upload(key) => UploadLoosens(f, key);
    case DeleteComponent(c) => CascadeLoosensNothing(f, w.db, Just(w.db, c), now);
    case DeleteService(s) => CascadeLoosensNothing(f, w.db, OfService(w.db, s), now);
    case DeleteArtifact(id, removal) =>
      DeletionsLoosen(f, id, w.configured, removal);
      DeletionAddsNoObject(f, id, w.configured, removal);
    case ListExpired(_, _) =>
    case RemoveObject(_) => RemovalLoosensNothing(f, v.objects);
    case MarkPending(fails) => MarkingLoosensNothing(f, w.jobs[0].id);
    case DropRow(fails) =>
      assert w.jobs[0] in w.jobs;
      DroppingLoosens(f, w.jobs[0].id, w.jobs[0].key);
  }

  lemma DeletionAddsNoObject(f: Files, id: Id, configured: bool, removal: StoreCall)
    ensures ArtifactDeleted(f, id, configured, removal).objects <= f.objects
  {
  }

  ghost function AllLoosened(w: World, ms: seq<Moment>): set<string>
    decreases |ms|
  {
    if ms == [] then {} else Loosened(w, ms[0].event) + AllLoosened(ms[0].world, ms[1..])
  }

  lemma {:induction false} OrphansStayWithin(w: World, ms: seq<Moment>, loose: set<string>)
    requires Orderly(w) && Run(w, ms) && Orphans(FilesOf(w)) <= loose && HeadIsGone(w, loose)
    ensures Orphans(FilesOf(Last(w, ms))) <= loose + AllLoosened(w, ms)
    decreases |ms|
  {
    hide Orphans, Next, Loosened, Orderly, HeadIsGone;
    if ms != [] {
      var e, v := ms[0].event, ms[0].world;
      NextLoosensOnly(w, e, ms[0].now, v, loose);
      NextKeepsOrder(w, e, ms[0].now, v);
      OrphansStayWithin(v, ms[1..], loose + Loosened(w, e));
    }
  }

  /** Over every interleaving of the calls: whatever is an orphan in the end was one at the start, or
      was loosened on the way by an upload, by a user deletion whose object survived, or by dropping a
      row without a store. Cascades and passes with a store, with any calls failing and anything
      coming between them, never contribute. */
  lemma OrphansHaveACause(w: World, ms: seq<Moment>)
    requires Orderly(w) && w.jobs == [] && Run(w, ms)
    ensures Orphans(FilesOf(Last(w, ms))) <= Orphans(FilesOf(w)) + AllLoosened(w, ms)
  {
    hide Orphans, Run, Orderly;
    OrphansStayWithin(w, ms, Orphans(FilesOf(w)));
  }
}
