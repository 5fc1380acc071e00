/** Versioned configuration: live rows per scope beside an append-only history of whole-scope
    snapshots. `Step` says what each operation does; `ConfigStore` carries the operations out. */
module ConfigVersions {
  import opened Text
  import opened Ordering

  type Id = s: string | s != "" witness "0"

  /** A component's global defaults, or its overrides for one environment. */
  datatype Scope = Scope(component: Id, environment: Option<Id>)

  datatype RowKey = RowKey(scope: Scope, key: string)

  datatype Config = Config(value: string, isSecret: bool, secretRef: string)

  datatype Entry = Entry(key: string, value: string, isSecret: bool, secretRef: string)

  datatype Snapshot = Snapshot(component: Id, scopeKey: string, version: int, comment: string, body: seq<Entry>)

  datatype AuditRow = AuditRow(at: RowKey, action: string, oldValue: string, newValue: string)

  /** The live rows are unique per scope and key, as the table's indexes enforce. */
  datatype State = State(rows: map<RowKey, Config>, snapshots: seq<Snapshot>, audit: seq<AuditRow>)

  const MASK := "<secret>"

  function ScopeKeyOf(environment: Option<Id>): string {
    match environment
    case None => ""
    case Some(id) => id
  }

  lemma ScopeKeysDistinct(a: Scope, b: Scope)
    ensures a == b <==> a.component == b.component && ScopeKeyOf(a.environment) == ScopeKeyOf(b.environment)
  {
  }

  // ---- snapshot bodies ----

  /** Secret values never enter a body. */
  function EntryOf(key: string, c: Config): Entry {
    Entry(key, if c.isSecret then MASK else c.value, c.isSecret, c.secretRef)
  }

  predicate KeyLess(a: Entry, b: Entry) {
    StrLess(a.key, b.key)
  }

  lemma KeyLessIsStrictOrder()
    ensures StrictOrder(KeyLess)
  {
    StrLessIsStrictOrder();
  }

  predicate Live(rows: map<RowKey, Config>, scope: Scope, e: Entry) {
    var k := RowKey(scope, e.key);
    k in rows && e == EntryOf(e.key, rows[k])
  }

  /** `body` lists the scope's rows, masked, in ascending key order. */
  ghost predicate IsBody(body: seq<Entry>, rows: map<RowKey, Config>, scope: Scope) {
    && Ascending(body, KeyLess)
    && forall e :: e in body <==> Live(rows, scope, e)
  }

  lemma BodyUnique(a: seq<Entry>, b: seq<Entry>, rows: map<RowKey, Config>, scope: Scope)
    requires IsBody(a, rows, scope) && IsBody(b, rows, scope)
    ensures a == b
  {
    KeyLessIsStrictOrder();
    AscendingUnique(a, b, KeyLess);
  }

  ghost predicate DistinctKeys(entries: seq<Entry>) {
    forall i, j :: 0 <= i < j < |entries| ==> entries[i].key != entries[j].key
  }

  lemma AscendingKeysDistinct(body: seq<Entry>)
    requires Ascending(body, KeyLess)
    ensures DistinctKeys(body)
  {
    forall i, j | 0 <= i < j < |body|
      ensures body[i].key != body[j].key
    {
      assert KeyLess(body[i], body[j]);
      StrLessTrichotomy(body[i].key, body[i].key);
    }
  }

  /** Sorting the scope's entries, in whatever order they were listed, gives its body. */
  lemma SortedIsBody(entries: seq<Entry>, rows: map<RowKey, Config>, scope: Scope)
    requires DistinctKeys(entries)
    requires forall e :: e in entries <==> Live(rows, scope, e)
    ensures IsBody(SortStable(entries, KeyLess), rows, scope)
  {
    KeyLessIsStrictOrder();
    forall i, j | 0 <= i < j < |entries|
      ensures KeyLess(entries[i], entries[j]) || KeyLess(entries[j], entries[i])
    {
      StrLessTrichotomy(entries[i].key, entries[j].key);
    }
    SortAscending(entries, KeyLess);
    SortMembers(entries, KeyLess);
  }

  lemma {:induction false} EntriesExist(rows: map<RowKey, Config>, scope: Scope) returns (entries: seq<Entry>)
    ensures DistinctKeys(entries)
    ensures forall e :: e in entries <==> Live(rows, scope, e)
    decreases |rows|
  {
    if rows == map[] {
      entries := [];
    } else {
      var k :| k in rows;
      var fewer := rows - {k};
      assert fewer.Keys == rows.Keys - {k};
      entries := EntriesExist(fewer, scope);
      if k.scope == scope {
        var e := EntryOf(k.key, rows[k]);
        forall i | 0 <= i < |entries|
          ensures entries[i].key != k.key
        {
          assert Live(fewer, scope, entries[i]);
        }
        entries := entries + [e];
      }
    }
  }

  lemma BodyExists(rows: map<RowKey, Config>, scope: Scope)
    ensures exists body :: IsBody(body, rows, scope)
  {
    var entries := EntriesExist(rows, scope);
    SortedIsBody(entries, rows, scope);
  }

  /** The snapshot of the scope's live rows. */
  ghost function Body(rows: map<RowKey, Config>, scope: Scope): (body: seq<Entry>)
    ensures IsBody(body, rows, scope)
  {
    BodyExists(rows, scope);
    var body :| IsBody(body, rows, scope);
    body
  }

  // ---- history ----

  predicate Of(sn: Snapshot, scope: Scope) {
    sn.component == scope.component && sn.scopeKey == ScopeKeyOf(scope.environment)
  }

  /** The highest version of the scope, 0 when it has none. */
  function Latest(history: seq<Snapshot>, scope: Scope): (v: int)
    ensures v >= 0
  {
    if history == [] then 0
    else
      var sn, before := history[|history| - 1], Latest(history[..|history| - 1], scope);
      if Of(sn, scope) && sn.version > before then sn.version else before
  }

  function GetByVersion(history: seq<Snapshot>, scope: Scope, version: int): (r: Option<Snapshot>)
    ensures r.Some? ==> r.value in history && Of(r.value, scope) && r.value.version == version
  {
    if history == [] then None
    else if Of(history[0], scope) && history[0].version == version then Some(history[0])
    else GetByVersion(history[1..], scope, version)
  }

  // ---- restoring a body ----

  function Find(entries: seq<Entry>, key: string): (r: Option<Entry>)
    ensures r.Some? ==> r.value in entries && r.value.key == key
    ensures r == None ==> forall e :: e in entries ==> e.key != key
  {
    if entries == [] then None
    else if entries[0].key == key then Some(entries[0])
    else Find(entries[1..], key)
  }

  lemma FindMember(entries: seq<Entry>, e: Entry)
    requires DistinctKeys(entries) && e in entries
    ensures Find(entries, e.key) == Some(e)
  {
    var f := Find(entries, e.key).value;
    var i :| 0 <= i < |entries| && entries[i] == e;
    var j :| 0 <= j < |entries| && entries[j] == f;
    assert i == j;
  }

  /** A secret that no longer has a row comes back without a value; everything else comes back as
      the entry has it. */
  function Restored(present: bool, e: Entry): Config {
    Config(if e.isSecret && !present then "" else e.value, e.isSecret, e.secretRef)
  }

  /** Make the scope's rows match the entries: write each one, delete the keys that have none. */
  function Restore(rows: map<RowKey, Config>, scope: Scope, entries: seq<Entry>): map<RowKey, Config> {
    map k | k in rows.Keys + (set e | e in entries :: RowKey(scope, e.key))
            && (k.scope == scope ==> Find(entries, k.key).Some?) ::
      if k.scope == scope then Restored(k in rows, Find(entries, k.key).value) else rows[k]
  }

  /** Every body in the history is in key order and masked. */
  ghost predicate WellFormed(body: seq<Entry>) {
    Ascending(body, KeyLess) && forall e :: e in body && e.isSecret ==> e.value == MASK
  }

  /** Restoring a body and taking a snapshot gives the body back, secrets included. */
  lemma RestoreReproducesBody(rows: map<RowKey, Config>, scope: Scope, body: seq<Entry>)
    requires WellFormed(body)
    ensures Body(Restore(rows, scope, body), scope) == body
  {
    var after := Restore(rows, scope, body);
    AscendingKeysDistinct(body);
    forall e
      ensures e in body <==> Live(after, scope, e)
    {
      if e in body {
        FindMember(body, e);
        assert RowKey(scope, e.key) in after;
      }
      if Live(after, scope, e) {
        var f := Find(body, e.key).value;
        assert f in body;
      }
    }
    BodyUnique(Body(after, scope), body, after, scope);
  }

  // ---- the operations ----

  /** Which of an operation's database calls fail. */
  datatype Faults = Faults(write: bool, audit: bool, list: bool, lock: bool, readPrevious: bool, insert: bool)

  const SOUND := Faults(false, false, false, false, false, false)

  datatype Op =
    | Upsert(previously: Option<RowKey>, at: RowKey, config: Config, faults: Faults)
    | Delete(at: RowKey, faults: Faults)
    | Capture(scope: Scope, comment: string, faults: Faults)
    | Rollback(scope: Scope, version: int, comment: string, faults: Faults)

  datatype Outcome = Outcome(state: State, ok: bool)

  function Appended(s: State, scope: Scope, comment: string, body: seq<Entry>): State {
    s.(snapshots := s.snapshots + [Snapshot(scope.component, ScopeKeyOf(scope.environment),
                                            Latest(s.snapshots, scope) + 1, comment, body)])
  }

  /** Records the live rows as the next version, unless the newest version already has this body. */
  ghost function Captured(s: State, scope: Scope, comment: string, f: Faults): Outcome {
    var latest := Latest(s.snapshots, scope);
    var previous := GetByVersion(s.snapshots, scope, latest);
    if f.list || f.lock then Outcome(s, false)
    else if latest > 0 && !f.readPrevious && previous.Some? && previous.value.body == Body(s.rows, scope) then
      Outcome(s, true)
    else if f.insert then Outcome(s, false)
    else Outcome(Appended(s, scope, comment, Body(s.rows, scope)), true)
  }

  function RollbackComment(version: int, comment: string): string {
    "回滚到 v" + Itoa(version) + "：" + comment
  }

  /** Restores an old body and records it as a new version, in one transaction. */
  function RolledBack(s: State, scope: Scope, version: int, comment: string, f: Faults): Outcome {
    var target := GetByVersion(s.snapshots, scope, version);
    if f.readPrevious || target == None || f.write || f.lock || f.insert then Outcome(s, false)
    else
      var restored := s.(rows := Restore(s.rows, scope, target.value.body));
      Outcome(Appended(restored, scope, RollbackComment(version, comment), target.value.body), true)
  }

  function Shown(c: Config): string {
    if c.isSecret then MASK else c.value
  }

  function Logged(s: State, row: AuditRow, f: Faults): State {
    if f.audit then s else s.(audit := s.audit + [row])
  }

  /** The rows a save leaves in place: all but the one it identifies. */
  function Others(rows: map<RowKey, Config>, previously: Option<RowKey>): map<RowKey, Config> {
    if previously.Some? && previously.value in rows then rows - {previously.value} else rows
  }

  function Saved(s: State, previously: Option<RowKey>, at: RowKey, c: Config, f: Faults): State {
    Logged(s.(rows := Others(s.rows, previously)[at := c]),
           AuditRow(at, if previously.Some? then "update" else "create", "", Shown(c)), f)
  }

  function Removed(s: State, at: RowKey, f: Faults): State
    requires at in s.rows
  {
    Logged(s.(rows := s.rows - {at}), AuditRow(at, "delete", Shown(s.rows[at]), ""), f)
  }

  function SaveComment(at: RowKey): string {
    "配置变更 " + at.key
  }

  function RemovalComment(at: RowKey): string {
    "删除配置 " + at.key
  }

  /** Saves a row: one with an identity replaces the row it identifies, wherever that was. Saving
      fails when another row holds the key. The audit row and the snapshot are best effort. */
  ghost function Upserted(s: State, previously: Option<RowKey>, at: RowKey, c: Config, f: Faults): Outcome {
    if f.write || at in Others(s.rows, previously) then Outcome(s, false)
    else Outcome(Captured(Saved(s, previously, at, c, f), at.scope, SaveComment(at), f).state, true)
  }

  ghost function Deleted(s: State, at: RowKey, f: Faults): Outcome {
    if at !in s.rows || f.write then Outcome(s, false)
    else Outcome(Captured(Removed(s, at, f), at.scope, RemovalComment(at), f).state, true)
  }

  ghost function Step(s: State, op: Op): Outcome {
    match op
    case Upsert(previously, at, c, f) => Upserted(s, previously, at, c, f)
    case Delete(at, f) => Deleted(s, at, f)
    case Capture(scope, comment, f) => Captured(s, scope, comment, f)
    case Rollback(scope, version, comment, f) => RolledBack(s, scope, version, comment, f)
  }

  function ScopeOf(op: Op): Scope {
    match op
    case Upsert(_, at, _, _) => at.scope
    case Delete(at, _) => at.scope
    case Capture(scope, _, _) => scope
    case Rollback(scope, _, _, _) => scope
  }
}
