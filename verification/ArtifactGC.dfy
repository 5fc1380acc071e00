/** Retention of artifacts: the garbage collector, the reconciliation report, and what both keep
    about the artifact table and the object store. */
module ArtifactGC {
  import opened Text
  import opened Cascade

  /** The artifact table and the keys of the stored objects. */
  datatype Files = Files(rows: map<Id, Artifact>, objects: set<string>)

  /** Deleting an object removes it, or reports a failure with the object still there or gone. */
  datatype StoreCall = Removed | FailedKept | FailedGone

  /** How the calls made for one row turn out. */
  datatype RowCalls = RowCalls(removal: StoreCall, markFails: bool, rowFails: bool)

  const NO_FAILURE := RowCalls(Removed, false, false)

  datatype Verdict = RowDeleted | ObjectFailed | RowFailed

  predicate ExpiredRow(a: Artifact, now: Time) {
    a.expiresAt.Some? && a.expiresAt.value < now
  }

  function Expired(rows: map<Id, Artifact>, now: Time): set<Id> {
    set a | a in rows && ExpiredRow(rows[a], now)
  }

  /** The rows a component's listing shows. */
  function Listed(rows: map<Id, Artifact>, component: Id): set<Id> {
    set a | a in rows && rows[a].component == component && rows[a].cleanup != PendingDeletion
  }

  // ---- one row ----

  function VerdictOf(configured: bool, c: RowCalls): Verdict {
    if configured && c.removal != Removed then ObjectFailed
    else if c.rowFails then RowFailed
    else RowDeleted
  }

  function ObjectsAfter(objects: set<string>, configured: bool, key: string, c: RowCalls): set<string> {
    if configured && c.removal != FailedKept then objects - {key} else objects
  }

  /** Object first, row second; a failed object removal is remembered in the row. */
  function Collected(f: Files, configured: bool, id: Id, c: RowCalls): Files
    requires id in f.rows
  {
    var rows := match VerdictOf(configured, c)
      case ObjectFailed => if c.markFails then f.rows else f.rows[id := f.rows[id].(cleanup := PendingDeletion)]
      case RowFailed => f.rows
      case RowDeleted => f.rows - {id};
    Files(rows, ObjectsAfter(f.objects, configured, f.rows[id].storageKey, c))
  }

  // ---- one pass ----

  ghost predicate Distinct(ids: seq<Id>) {
    forall i, j :: 0 <= i < j < |ids| ==> ids[i] != ids[j]
  }

  ghost predicate Batchable(f: Files, batch: seq<Id>) {
    Distinct(batch) && forall id :: id in batch ==> id in f.rows
  }

  /** The table and the store after the rows of `batch` have been worked through in order. */
  ghost function Passed(f: Files, configured: bool, batch: seq<Id>, calls: Id -> RowCalls): Files
    decreases |batch|
  {
    if batch == [] then f
    else
      var before, id := Passed(f, configured, batch[..|batch| - 1], calls), batch[|batch| - 1];
      if id in before.rows then Collected(before, configured, id, calls(id)) else before
  }

  function VerdictCount(configured: bool, batch: seq<Id>, calls: Id -> RowCalls, v: Verdict): nat {
    if batch == [] then 0
    else
      VerdictCount(configured, batch[..|batch| - 1], calls, v)
      + if VerdictOf(configured, calls(batch[|batch| - 1])) == v then 1 else 0
  }

  /** Every row looked at is deleted, kept for its object's sake, or kept for its own. */
  lemma {:induction false} CountsAddUp(configured: bool, batch: seq<Id>, calls: Id -> RowCalls)
    ensures |batch| == VerdictCount(configured, batch, calls, RowDeleted)
      + VerdictCount(configured, batch, calls, ObjectFailed) + VerdictCount(configured, batch, calls, RowFailed)
    decreases |batch|
  {
    if batch != [] {
      CountsAddUp(configured, batch[..|batch| - 1], calls);
    }
  }

  /** The rows of the batch by what became of them. */
  function Verdicts(configured: bool, batch: seq<Id>, calls: Id -> RowCalls, v: Verdict): set<Id> {
    set id | id in batch && VerdictOf(configured, calls(id)) == v
  }

  lemma {:induction false} VerdictsCounted(configured: bool, batch: seq<Id>, calls: Id -> RowCalls, v: Verdict)
    requires Distinct(batch)
    ensures VerdictCount(configured, batch, calls, v) == |Verdicts(configured, batch, calls, v)|
    decreases |batch|
  {
    if batch != [] {
      var front, last := batch[..|batch| - 1], batch[|batch| - 1];
      VerdictsCounted(configured, front, calls, v);
      VerdictsNext(configured, batch, calls, v);
      hide Verdicts, VerdictOf, Distinct;
    }
  }

  lemma VerdictsNext(configured: bool, batch: seq<Id>, calls: Id -> RowCalls, v: Verdict)
    requires Distinct(batch) && batch != []
    ensures var front, last := batch[..|batch| - 1], batch[|batch| - 1];
      && Distinct(front) && last !in Verdicts(configured, front, calls, v)
      && Verdicts(configured, batch, calls, v)
           == Verdicts(configured, front, calls, v) + if VerdictOf(configured, calls(last)) == v then {last} else {}
  {
    hide VerdictOf;
    var front, last := batch[..|batch| - 1], batch[|batch| - 1];
    assert batch == front + [last];
  }

  /** The row can be deleted: its object is out of the way, if there is a store, and the deletion works. */
  predicate Cleared(configured: bool, c: RowCalls) {
    (configured ==> c.removal == Removed) && !c.rowFails
  }

  /** A row that stays gets the retry mark exactly when its object could not be removed and setting the
      mark did not fail. */
  function KeptRow(a: Artifact, configured: bool, c: RowCalls): Artifact {
    if configured && c.removal != Removed && !c.markFails
    then Artifact(a.component, a.storageKey, a.expiresAt, PendingDeletion) else a
  }

  /** What a pass does to each row: rows outside the batch are untouched; a row in it is gone exactly
      when nothing stood in the way, and otherwise kept, with the mark when that is due. */
  lemma {:induction false} PassedRows(f: Files, configured: bool, batch: seq<Id>, calls: Id -> RowCalls, id: Id)
    requires Batchable(f, batch)
    ensures var rows := Passed(f, configured, batch, calls).rows;
      && (id in rows <==> id in f.rows && !(id in batch && Cleared(configured, calls(id))))
      && (id in rows && id !in batch ==> rows[id] == f.rows[id])
      && (id in rows && id in batch ==> rows[id] == KeptRow(f.rows[id], configured, calls(id)))
    decreases |batch|
  {
    if batch != [] {
      var front, last := batch[..|batch| - 1], batch[|batch| - 1];
      assert batch == front + [last];
      assert last !in front;
      PassedRows(f, configured, front, calls, id);
      PassedRows(f, configured, front, calls, last);
    }
  }

  lemma {:induction false} PassedObjects(f: Files, configured: bool, batch: seq<Id>, calls: Id -> RowCalls, key: string)
    requires Batchable(f, batch)
    ensures key in Passed(f, configured, batch, calls).objects <==>
      key in f.objects
      && !(configured && exists id :: id in batch && f.rows[id].storageKey == key && calls(id).removal != FailedKept)
    decreases |batch|
  {
    if batch != [] {
      var front, last := batch[..|batch| - 1], batch[|batch| - 1];
      assert batch == front + [last];
      assert last !in front;
      PassedObjects(f, configured, front, calls, key);
      PassedRows(f, configured, front, calls, last);
    }
  }

  // ---- orphans and missing objects ----

  /** Objects no row refers to; the empty key is ignored. */
  ghost function Orphans(f: Files): set<string> {
    set k | k in f.objects && k != "" && (forall id :: id in f.rows ==> f.rows[id].storageKey != k)
  }

  /** Keys of rows whose object is not stored. */
  ghost function Missing(f: Files): set<string> {
    set id | id in f.rows && f.rows[id].storageKey != "" && f.rows[id].storageKey !in f.objects :: f.rows[id].storageKey
  }

  /** With a store, no pattern of failing calls makes a pass leave a new orphan. */
  lemma PassAddsNoOrphan(f: Files, batch: seq<Id>, calls: Id -> RowCalls)
    requires Batchable(f, batch)
    ensures Orphans(Passed(f, true, batch, calls)) <= Orphans(f)
  {
    var g := Passed(f, true, batch, calls);
    forall k | k in Orphans(g)
      ensures k in Orphans(f)
    {
      PassedObjects(f, true, batch, calls, k);
      forall id | id in f.rows
        ensures f.rows[id].storageKey != k
      {
        PassedRows(f, true, batch, calls, id);
      }
    }
  }

  /** Without a store, rows go and their objects stay: a key becomes an orphan exactly when its last
      rows were deleted in this pass. */
  lemma UnconfiguredPassOrphans(f: Files, batch: seq<Id>, calls: Id -> RowCalls, k: string)
    requires Batchable(f, batch) && k != ""
    ensures k in Orphans(Passed(f, false, batch, calls)) <==>
      && k in f.objects
      && forall id :: id in f.rows && f.rows[id].storageKey == k ==> id in batch && !calls(id).rowFails
  {
    var g := Passed(f, false, batch, calls);
    PassedObjects(f, false, batch, calls, k);
    forall id
      ensures id in g.rows ==> id in f.rows && g.rows[id].storageKey == f.rows[id].storageKey
      ensures id in f.rows ==> (id in g.rows <==> !(id in batch && !calls(id).rowFails))
    {
      PassedRows(f, false, batch, calls, id);
    }
  }

  /** A pass can take the object from under a row that stays: one that shares its key with a row of
      the batch, or one it could not delete. There is no other way a key becomes missing. */
  lemma PassMissing(f: Files, configured: bool, batch: seq<Id>, calls: Id -> RowCalls, k: string)
    requires Batchable(f, batch) && k in f.objects && k != ""
    ensures k in Missing(Passed(f, configured, batch, calls)) <==>
      && configured
      && (exists id :: id in batch && f.rows[id].storageKey == k && calls(id).removal != FailedKept)
      && (exists id :: id in f.rows && f.rows[id].storageKey == k
            && !(id in batch && VerdictOf(configured, calls(id)) == RowDeleted))
  {
    var g := Passed(f, configured, batch, calls);
    PassedObjects(f, configured, batch, calls, k);
    forall id
      ensures id in g.rows ==> id in f.rows && g.rows[id].storageKey == f.rows[id].storageKey
      ensures id in f.rows ==> (id in g.rows <==> !(id in batch && VerdictOf(configured, calls(id)) == RowDeleted))
    {
      PassedRows(f, configured, batch, calls, id);
    }
  }

  // ---- the batch a pass takes ----

  /** Expired rows, oldest first, as many as the limit allows, or all of them with a limit of 0; rows
      left out are no older. */
  ghost predicate IsBatch(rows: map<Id, Artifact>, now: Time, limit: nat, batch: seq<Id>) {
    && Distinct(batch)
    && (limit > 0 ==> |batch| <= limit)
    && (forall id :: id in batch ==> id in Expired(rows, now))
    && (forall i, j :: 0 <= i < j < |batch| && batch[i] in rows && batch[j] in rows
          ==> ExpiryOf(rows[batch[i]]) <= ExpiryOf(rows[batch[j]]))
    && (forall id :: id in Expired(rows, now) && id !in batch ==>
          |batch| == limit > 0 && forall other :: other in batch && other in rows ==> ExpiryOf(rows[other]) <= ExpiryOf(rows[id]))
  }

  function ExpiryOf(a: Artifact): Time {
    if a.expiresAt.Some? then a.expiresAt.value else 0
  }

  /** A pass only ever removes expired rows. */
  lemma PassSparesUnexpired(f: Files, configured: bool, now: Time, limit: nat, batch: seq<Id>, calls: Id -> RowCalls, id: Id)
    requires IsBatch(f.rows, now, limit, batch) && id in f.rows
    requires f.rows[id].expiresAt.Some? ==> now <= f.rows[id].expiresAt.value
    ensures id in Passed(f, configured, batch, calls).rows && Passed(f, configured, batch, calls).rows[id] == f.rows[id]
  {
    PassedRows(f, configured, batch, calls, id);
  }

  function IdSet(batch: seq<Id>): set<Id> {
    set id | id in batch
  }

  lemma {:induction false} DistinctSize(batch: seq<Id>)
    requires Distinct(batch)
    ensures |IdSet(batch)| == |batch|
  {
    if batch != [] {
      var front, last := batch[..|batch| - 1], batch[|batch| - 1];
      DistinctSize(front);
      assert batch == front + [last];
      assert IdSet(batch) == IdSet(front) + {last};
    }
  }

  function NoFailures(id: Id): RowCalls {
    NO_FAILURE
  }

  /** A pass in which no call fails deletes due rows only, oldest first; it leaves none that is due,
      unless it has deleted as many as the limit. Due are the rows whose time of expiry has passed. */
  lemma CleanPassTakesDue(f: Files, configured: bool, now: Time, limit: nat, batch: seq<Id>)
    requires IsBatch(f.rows, now, limit, batch)
    ensures var gone := f.rows.Keys - Passed(f, configured, batch, NoFailures).rows.Keys;
      && (forall id :: id in gone ==> f.rows[id].expiresAt.Some? && f.rows[id].expiresAt.value < now)
      && (limit > 0 ==> |gone| <= limit)
      && forall id :: id in f.rows && id !in gone && f.rows[id].expiresAt.Some? && f.rows[id].expiresAt.value < now ==>
           && |gone| == limit > 0
           && forall other :: other in gone ==> f.rows[other].expiresAt.value <= f.rows[id].expiresAt.value
  {
    hide Passed;
    CleanPassTakesBatch(f, configured, now, limit, batch);
    DistinctSize(batch);
  }

  lemma CleanPassTakesBatch(f: Files, configured: bool, now: Time, limit: nat, batch: seq<Id>)
    requires IsBatch(f.rows, now, limit, batch)
    ensures f.rows.Keys - Passed(f, configured, batch, NoFailures).rows.Keys == IdSet(batch)
  {
    hide Passed;
    var gone := f.rows.Keys - Passed(f, configured, batch, NoFailures).rows.Keys;
    assert Batchable(f, batch);
    forall id
      ensures id in gone <==> id in batch
    {
      PassedRows(f, configured, batch, NoFailures, id);
    }
    assert gone == IdSet(batch);
  }

  // ---- draining ----

  /** One pass: when it ran, the rows it took, and how its calls turned out. */
  datatype Pass = Pass(now: Time, batch: seq<Id>, calls: Id -> RowCalls)

  /** Outside `bad` the pass deletes every row it takes; about the rows in `bad` nothing is said. */
  ghost predicate Deletes(configured: bool, p: Pass, bad: set<Id>) {
    forall id :: id in p.batch && id !in bad ==> VerdictOf(configured, p.calls(id)) == RowDeleted
  }

  /** A sequence of passes from `since` on, each taking a batch of what the earlier ones left, in which
      calls fail for rows in `bad` only. */
  ghost predicate Passes(f: Files, configured: bool, limit: nat, since: Time, bad: set<Id>, ps: seq<Pass>)
    decreases |ps|
  {
    ps != [] ==>
      && since <= ps[0].now
      && IsBatch(f.rows, ps[0].now, limit, ps[0].batch)
      && Deletes(configured, ps[0], bad)
      && Passes(Passed(f, configured, ps[0].batch, ps[0].calls), configured, limit, since, bad, ps[1..])
  }

  ghost function AfterPasses(f: Files, configured: bool, ps: seq<Pass>): Files
    decreases |ps|
  {
    if ps == [] then f else AfterPasses(Passed(f, configured, ps[0].batch, ps[0].calls), configured, ps[1..])
  }

  lemma PassKeepsExpiries(f: Files, configured: bool, now: Time, limit: nat, batch: seq<Id>, calls: Id -> RowCalls, since: Time)
    requires IsBatch(f.rows, now, limit, batch)
    ensures var rows := Passed(f, configured, batch, calls).rows;
      && (forall id :: id in rows <==> id in f.rows && !(id in batch && VerdictOf(configured, calls(id)) == RowDeleted))
      && (forall id :: id in rows ==> rows[id].expiresAt == f.rows[id].expiresAt)
      && Expired(rows, since) == set id | id in Expired(f.rows, since) && id in rows
  {
    var rows := Passed(f, configured, batch, calls).rows;
    assert Batchable(f, batch);
    forall id
      ensures id in rows <==> id in f.rows && !(id in batch && VerdictOf(configured, calls(id)) == RowDeleted)
      ensures id in rows ==> rows[id].expiresAt == f.rows[id].expiresAt
    {
      PassedRows(f, configured, batch, calls, id);
    }
  }

  lemma SizeWithin(a: set<Id>, b: set<Id>)
    requires a <= b
    ensures |a| <= |b|
  {
    assert b == a + (b - a);
  }

  lemma NothingOutside(a: set<Id>, b: set<Id>)
    requires |a - b| <= 0
    ensures a <= b
  {
    assert a - b == {};
    assert forall id :: id in a && id !in b ==> id in a - b;
  }

  lemma SameWhenAsLarge(a: set<Id>, b: set<Id>)
    requires a <= b && |b| <= |a|
    ensures a == b
  {
    assert b == a + (b - a);
  }

  /** A pass clears what is due outside `bad`, or takes at least the limit less the rows of `bad`. */
  lemma PassDrains(f: Files, configured: bool, limit: nat, since: Time, bad: set<Id>, p: Pass, b: nat)
    requires since <= p.now && IsBatch(f.rows, p.now, limit, p.batch) && Deletes(configured, p, bad)
    requires |Expired(f.rows, since) * bad| <= b
    ensures var due := Expired(f.rows, since);
      var left := Expired(Passed(f, configured, p.batch, p.calls).rows, since);
      left <= due && (left - bad == {} || |left - bad| <= |due - bad| - limit + b)
  {
    hide Passed;
    var due := Expired(f.rows, since);
    var left := Expired(Passed(f, configured, p.batch, p.calls).rows, since);
    PassKeepsExpiries(f, configured, p.now, limit, p.batch, p.calls, since);
    DistinctSize(p.batch);
    if left - bad != {} {
      var id :| id in left - bad;
      assert id in Expired(f.rows, p.now) && id !in p.batch;
      FewerLeft(due, left, bad, IdSet(p.batch), b);
    }
  }

  lemma FewerLeft(due: set<Id>, left: set<Id>, bad: set<Id>, taken: set<Id>, b: nat)
    requires taken <= due && left <= due && |due * bad| <= b
    requires forall id :: id in taken && id !in bad ==> id !in left
    ensures |left - bad| <= |due - bad| - |taken| + b
  {
    assert left - bad <= (due - bad) - (taken - bad);
    SizeWithin(left - bad, (due - bad) - (taken - bad));
    assert taken == (taken - bad) + (taken * bad);
    SizeWithin(taken * bad, due * bad);
    assert |(due - bad) - (taken - bad)| == |due - bad| - |taken - bad|;
  }

  /** Progress despite failures: if calls fail for at most `b` of the rows due, fewer than the limit,
      then `n` passes clear all the others, up to `n * (limit - b)` of them. */
  lemma {:induction false} PassesDrainOthers(f: Files, configured: bool, limit: nat, since: Time, bad: set<Id>, ps: seq<Pass>, b: nat)
    requires Passes(f, configured, limit, since, bad, ps)
    requires |Expired(f.rows, since) * bad| <= b < limit
    requires |Expired(f.rows, since) - bad| <= |ps| * (limit - b)
    ensures Expired(AfterPasses(f, configured, ps).rows, since) <= bad
    decreases |ps|
  {
    hide Expired, Passed, IsBatch, Deletes;
    if ps == [] {
      assert |ps| * (limit - b) == 0;
      NothingOutside(Expired(f.rows, since), bad);
    } else {
      var g := Passed(f, configured, ps[0].batch, ps[0].calls);
      PassDrains(f, configured, limit, since, bad, ps[0], b);
      OneLess(|ps|, limit - b);
      SizeWithin(Expired(g.rows, since) * bad, Expired(f.rows, since) * bad);
      if Expired(g.rows, since) - bad == {} {
        NothingToDrain(|ps| - 1, limit - b);
      }
      PassesDrainOthers(g, configured, limit, since, bad, ps[1..], b);
    }
  }

  /** Without failures `n` passes clear any backlog of at most `n * limit` expired rows. */
  lemma PassesDrain(f: Files, configured: bool, limit: nat, since: Time, ps: seq<Pass>)
    requires limit > 0 && Passes(f, configured, limit, since, {}, ps)
    requires |Expired(f.rows, since)| <= |ps| * limit
    ensures Expired(AfterPasses(f, configured, ps).rows, since) == {}
  {
    assert Expired(f.rows, since) * {} == {} && Expired(f.rows, since) - {} == Expired(f.rows, since);
    PassesDrainOthers(f, configured, limit, since, {}, ps, 0);
  }

  /** The bound on failures is sharp. These rows, at least as many as the limit, are due and older
      than all others. */
  ghost predicate Blocking(rows: map<Id, Artifact>, limit: nat, since: Time, stuck: set<Id>) {
    && 0 < limit <= |stuck| && stuck <= Expired(rows, since)
    && forall a, o :: a in stuck && o in rows && o !in stuck && rows[o].expiresAt.Some? ==> ExpiryOf(rows[a]) < ExpiryOf(rows[o])
  }

  ghost predicate StuckPasses(f: Files, configured: bool, limit: nat, since: Time, stuck: set<Id>, ps: seq<Pass>)
    decreases |ps|
  {
    ps != [] ==>
      && since <= ps[0].now
      && IsBatch(f.rows, ps[0].now, limit, ps[0].batch)
      && (forall id :: id in stuck ==> VerdictOf(configured, ps[0].calls(id)) != RowDeleted)
      && StuckPasses(Passed(f, configured, ps[0].batch, ps[0].calls), configured, limit, since, stuck, ps[1..])
  }

  lemma BlockedBatch(f: Files, limit: nat, since: Time, stuck: set<Id>, now: Time, batch: seq<Id>)
    requires Blocking(f.rows, limit, since, stuck) && since <= now && IsBatch(f.rows, now, limit, batch)
    ensures forall id :: id in batch ==> id in stuck
  {
    DistinctSize(batch);
    if stuck <= IdSet(batch) {
      SameWhenAsLarge(stuck, IdSet(batch));
      assert forall id :: id in batch ==> id in IdSet(batch);
    } else {
      var a :| a in stuck && a !in IdSet(batch);
      assert a in Expired(f.rows, now) && a !in batch;
    }
  }

  /** If the oldest rows due, as many as the limit, fail in every pass, no pass ever deletes a row:
      every batch consists of them. */
  lemma {:induction false} BlockedForEver(f: Files, configured: bool, limit: nat, since: Time, stuck: set<Id>, ps: seq<Pass>)
    requires Blocking(f.rows, limit, since, stuck) && StuckPasses(f, configured, limit, since, stuck, ps)
    ensures AfterPasses(f, configured, ps).rows.Keys == f.rows.Keys
    decreases |ps|
  {
    if ps != [] {
      var p := ps[0];
      var g := Passed(f, configured, p.batch, p.calls);
      BlockedBatch(f, limit, since, stuck, p.now, p.batch);
      PassKeepsExpiries(f, configured, p.now, limit, p.batch, p.calls, since);
      assert g.rows.Keys == f.rows.Keys;
      assert Blocking(g.rows, limit, since, stuck);
      hide Passed, IsBatch, Blocking;
      BlockedForEver(g, configured, limit, since, stuck, ps[1..]);
    }
  }

  lemma OneLess(n: nat, limit: nat)
    requires n > 0
    ensures n * limit == (n - 1) * limit + limit
  {
  }

  lemma NothingToDrain(n: nat, limit: nat)
    ensures 0 <= n * limit
  {
  }

  // ---- the collector ----

  const DEFAULT_BATCH := 100
  const MAX_SAMPLE := 20

  datatype Report = Report(batch: nat, scanned: nat, deleted: nat, objectsFailed: nat, rowsFailed: nat, pendingSample: seq<string>)

  /** The keys whose objects could not be removed, in pass order, at most `MAX_SAMPLE` of them. */
  function Sample(rows: map<Id, Artifact>, configured: bool, batch: seq<Id>, calls: Id -> RowCalls): seq<string> {
    if batch == [] then []
    else
      var before, id := Sample(rows, configured, batch[..|batch| - 1], calls), batch[|batch| - 1];
      if id in rows && VerdictOf(configured, calls(id)) == ObjectFailed && |before| < MAX_SAMPLE then
        before + [rows[id].storageKey]
      else before
  }

  function ReportOf(rows: map<Id, Artifact>, configured: bool, limit: nat, batch: seq<Id>, calls: Id -> RowCalls): Report {
    Report(limit, |batch|, VerdictCount(configured, batch, calls, RowDeleted),
           VerdictCount(configured, batch, calls, ObjectFailed), VerdictCount(configured, batch, calls, RowFailed),
           Sample(rows, configured, batch, calls))
  }

  /** The rows of the batch whose objects could not be removed. */
  function Blocked(configured: bool, batch: seq<Id>, calls: Id -> RowCalls): set<Id> {
    set id | id in batch && configured && calls(id).removal != Removed
  }

  /** The rows of the batch that could not be deleted, although their objects were out of the way. */
  function Unlucky(configured: bool, batch: seq<Id>, calls: Id -> RowCalls): set<Id> {
    set id | id in batch && (configured ==> calls(id).removal == Removed) && calls(id).rowFails
  }

  lemma {:induction false} SampleIs(rows: map<Id, Artifact>, configured: bool, batch: seq<Id>, calls: Id -> RowCalls)
    requires forall id :: id in batch ==> id in rows
    ensures var sample, failed := Sample(rows, configured, batch, calls), VerdictCount(configured, batch, calls, ObjectFailed);
      && |sample| == (if failed < 20 then failed else 20)
      && forall k :: k in sample ==> exists id :: id in Blocked(configured, batch, calls) && rows[id].storageKey == k
    decreases |batch|
  {
    if batch != [] {
      var front, last := batch[..|batch| - 1], batch[|batch| - 1];
      assert batch == front + [last];
      SampleIs(rows, configured, front, calls);
      assert Blocked(configured, front, calls) <= Blocked(configured, batch, calls);
    }
  }

  /** A report tells the truth: how many rows were looked at, how many are gone, how many kept their
      object or only themselves; and its sample names keys whose objects could not be removed, all of
      them up to twenty. */
  lemma ReportIsTrue(f: Files, configured: bool, now: Time, limit: nat, batch: seq<Id>, calls: Id -> RowCalls)
    requires IsBatch(f.rows, now, limit, batch)
    ensures var r := ReportOf(f.rows, configured, limit, batch, calls);
      var blocked := Blocked(configured, batch, calls);
      && r.scanned == |IdSet(batch)|
      && r.deleted == |f.rows.Keys - Passed(f, configured, batch, calls).rows.Keys|
      && r.objectsFailed == |blocked|
      && r.rowsFailed == |Unlucky(configured, batch, calls)|
      && |r.pendingSample| == (if |blocked| < 20 then |blocked| else 20)
      && forall k :: k in r.pendingSample ==> exists id :: id in blocked && f.rows[id].storageKey == k
  {
    hide Sample, VerdictCount, Passed, Verdicts, VerdictOf, Blocked, Unlucky, IsBatch;
    BatchIsDistinct(f, now, limit, batch);
    hide Distinct;
    DistinctSize(batch);
    VerdictsCounted(configured, batch, calls, RowDeleted);
    VerdictsCounted(configured, batch, calls, ObjectFailed);
    VerdictsCounted(configured, batch, calls, RowFailed);
    SampleIs(f.rows, configured, batch, calls);
    VerdictsAre(f, configured, batch, calls);
  }

  lemma BatchIsDistinct(f: Files, now: Time, limit: nat, batch: seq<Id>)
    requires IsBatch(f.rows, now, limit, batch)
    ensures Batchable(f, batch) && forall id :: id in batch ==> id in f.rows
  {
  }

  lemma VerdictsAre(f: Files, configured: bool, batch: seq<Id>, calls: Id -> RowCalls)
    requires Batchable(f, batch)
    ensures Verdicts(configured, batch, calls, RowDeleted) == f.rows.Keys - Passed(f, configured, batch, calls).rows.Keys
    ensures Verdicts(configured, batch, calls, ObjectFailed) == Blocked(configured, batch, calls)
    ensures Verdicts(configured, batch, calls, RowFailed) == Unlucky(configured, batch, calls)
  {
    hide Passed;
    var gone := f.rows.Keys - Passed(f, configured, batch, calls).rows.Keys;
    forall id
      ensures id in gone <==> id in Verdicts(configured, batch, calls, RowDeleted)
    {
      PassedRows(f, configured, batch, calls, id);
    }
    assert gone == Verdicts(configured, batch, calls, RowDeleted);
  }

  class Collector {
    var rows: map<Id, Artifact>
    var objects: set<string>
    const configured: bool
    const batchSize: nat

    function View(): Files
      reads this
    {
      Files(rows, objects)
    }

    constructor (files: Files, configured: bool, batch: int)
      ensures View() == files && this.configured == configured
      ensures batchSize == if batch <= 0 then DEFAULT_BATCH else batch
    {
      rows, objects := files.rows, files.objects;
      this.configured := configured;
      batchSize := if batch <= 0 then DEFAULT_BATCH else batch;
    }

    /** The expired rows, oldest first, up to the limit if that is positive. */
    method FindExpired(now: Time, limit: int) returns (out: seq<Id>)
      ensures IsBatch(rows, now, if limit < 0 then 0 else limit, out)
    {
      out := [];
      var pending := Expired(rows, now);
      while pending != {} && (limit <= 0 || |out| < limit)
        invariant Distinct(out) && (limit > 0 ==> |out| <= limit)
        invariant forall id :: id in out ==> id in Expired(rows, now) && id !in pending
        invariant forall id :: id in Expired(rows, now) <==> id in out || id in pending
        invariant forall i, j :: 0 <= i < j < |out| && out[i] in rows && out[j] in rows ==>
          ExpiryOf(rows[out[i]]) <= ExpiryOf(rows[out[j]])
        invariant forall id, other :: id in pending && other in out && other in rows ==>
          ExpiryOf(rows[other]) <= ExpiryOf(rows[id])
        decreases pending
      {
        var id := Oldest(pending);
        pending := pending - {id};
        out := out + [id];
      }
    }

    method Oldest(ids: set<Id>) returns (id: Id)
      requires ids != {} && ids <= rows.Keys
      ensures id in ids && forall other :: other in ids ==> ExpiryOf(rows[id]) <= ExpiryOf(rows[other])
    {
      id :| id in ids;
      var rest := ids - {id};
      while rest != {}
        invariant id in ids && rest <= ids
        invariant forall other :: other in ids - rest ==> ExpiryOf(rows[id]) <= ExpiryOf(rows[other])
        decreases rest
      {
        var other :| other in rest;
        rest := rest - {other};
        if ExpiryOf(rows[other]) < ExpiryOf(rows[id]) {
          id := other;
        }
      }
    }

    /** One bounded pass. It reports nothing and changes nothing when the rows cannot be listed. */
    method RunOnce(now: Time, listFails: bool, calls: Id -> RowCalls) returns (report: Option<Report>, ghost batch: seq<Id>)
      modifies this
      ensures report == None <==> listFails
      ensures listFails ==> View() == old(View())
      ensures !listFails ==>
        && IsBatch(old(rows), now, batchSize, batch)
        && View() == Passed(old(View()), configured, batch, calls)
        && report == Some(ReportOf(old(rows), configured, batchSize, batch, calls))
    {
      hide IsBatch, Passed, Collected, VerdictOf, VerdictCount, Sample;
      batch := [];
      if listFails {
        return None, [];
      }
      var found := FindExpired(now, batchSize);
      batch := found;
      var keys := rows;
      var deleted, objectsFailed, rowsFailed := 0, 0, 0;
      var sample: seq<string> := [];
      PassStarts(View(), configured, found, calls);
      var i := 0;
      while i < |found|
        invariant 0 <= i <= |found|
        invariant View() == Passed(old(View()), configured, found[..i], calls)
        invariant deleted == VerdictCount(configured, found[..i], calls, RowDeleted)
        invariant objectsFailed == VerdictCount(configured, found[..i], calls, ObjectFailed)
        invariant rowsFailed == VerdictCount(configured, found[..i], calls, RowFailed)
        invariant sample == Sample(keys, configured, found[..i], calls)
      {
        var id := found[i];
        NextInBatch(old(View()), configured, now, batchSize, found, i, calls);
        CountsNext(keys, configured, found, i, calls);
        var verdict := Collect(id, keys[id], calls(id));
        match verdict {
          case ObjectFailed =>
            objectsFailed := objectsFailed + 1;
            if |sample| < MAX_SAMPLE {
              sample := sample + [keys[id].storageKey];
            }
          case RowFailed => rowsFailed := rowsFailed + 1;
          case RowDeleted => deleted := deleted + 1;
        }
        i := i + 1;
      }
      assert found[..|found|] == found;
      report := Some(Report(batchSize, |found|, deleted, objectsFailed, rowsFailed, sample));
    }

    /** The work of a pass on one row. */
    method Collect(id: Id, a: Artifact, c: RowCalls) returns (verdict: Verdict)
      requires id in rows && rows[id].storageKey == a.storageKey
      modifies this
      ensures View() == Collected(old(View()), configured, id, c) && verdict == VerdictOf(configured, c)
    {
      if configured {
        if c.removal != FailedKept {
          objects := objects - {a.storageKey};
        }
        if c.removal != Removed {
          if !c.markFails {
            rows := rows[id := rows[id].(cleanup := PendingDeletion)];
          }
          return ObjectFailed;
        }
      }
      if c.rowFails {
        return RowFailed;
      }
      rows := rows - {id};
      return RowDeleted;
    }
  }

  lemma PassStarts(f: Files, configured: bool, batch: seq<Id>, calls: Id -> RowCalls)
    ensures Passed(f, configured, batch[..0], calls) == f && Sample(f.rows, configured, batch[..0], calls) == []
    ensures forall v :: VerdictCount(configured, batch[..0], calls, v) == 0
  {
  }

  lemma CountsNext(rows: map<Id, Artifact>, configured: bool, batch: seq<Id>, i: nat, calls: Id -> RowCalls)
    requires i < |batch| && batch[i] in rows
    ensures var verdict := VerdictOf(configured, calls(batch[i]));
      forall v ::
        VerdictCount(configured, batch[..i + 1], calls, v) == VerdictCount(configured, batch[..i], calls, v) + if verdict == v then 1 else 0
    ensures var before := Sample(rows, configured, batch[..i], calls);
      Sample(rows, configured, batch[..i + 1], calls)
        == if VerdictOf(configured, calls(batch[i])) == ObjectFailed && |before| < MAX_SAMPLE
           then before + [rows[batch[i]].storageKey] else before
  {
    hide VerdictOf;
    assert batch[..i + 1][..i] == batch[..i] && batch[..i + 1][i] == batch[i];
  }

  /** The next row of a batch is still there, with its key, when the pass reaches it. */
  lemma NextInBatch(f: Files, configured: bool, now: Time, limit: nat, batch: seq<Id>, i: nat, calls: Id -> RowCalls)
    requires IsBatch(f.rows, now, limit, batch) && i < |batch|
    ensures batch[..i + 1][..i] == batch[..i] && batch[..i + 1][i] == batch[i]
    ensures var g := Passed(f, configured, batch[..i], calls);
      && batch[i] in f.rows && batch[i] in g.rows
      && g.rows[batch[i]].storageKey == f.rows[batch[i]].storageKey
      && Passed(f, configured, batch[..i + 1], calls) == Collected(g, configured, batch[i], calls(batch[i]))
  {
    assert batch[..i + 1][..i] == batch[..i];
    assert forall id :: id in batch[..i] ==> id in batch;
    assert batch[i] in batch && batch[i] in Expired(f.rows, now) && batch[i] !in batch[..i];
    PassedRows(f, configured, batch[..i], calls, batch[i]);
  }
}
