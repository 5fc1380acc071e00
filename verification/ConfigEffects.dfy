/** What each configuration operation does, said of the rows, the versions and the audit trail. */
module ConfigEffects {
  import opened Text
  import opened Ordering
  import opened ConfigVersions
  import opened ConfigHistory

  /** The value of a row as it may be shown. */
  function Displayed(c: Config): string {
    if c.isSecret then "<secret>" else c.value
  }

  /** No row but those in `touched` is gone, new or different. */
  ghost predicate SameRowsBut(before: map<RowKey, Config>, after: map<RowKey, Config>, touched: set<RowKey>) {
    forall k :: k !in touched ==> (k in after <==> k in before) && (k in before ==> after[k] == before[k])
  }

  /** The newest version of a scope. */
  function Newest(s: State, scope: Scope): Option<Snapshot> {
    GetByVersion(s.snapshots, scope, Latest(s.snapshots, scope))
  }

  /** One entry a row, in key order, with nothing of a secret but that it is one. */
  ghost predicate Shows(body: seq<Entry>, rows: map<RowKey, Config>, scope: Scope) {
    && (forall i, j :: 0 <= i < j < |body| ==> StrLess(body[i].key, body[j].key))
    && (forall e :: e in body ==> RowKey(scope, e.key) in rows)
    && (forall k :: k in rows && k.scope == scope ==>
          Entry(k.key, Displayed(rows[k]), rows[k].isSecret, rows[k].secretRef) in body)
  }

  lemma BodyShows(rows: map<RowKey, Config>, scope: Scope)
    ensures Shows(Body(rows, scope), rows, scope)
  {
    var body := Body(rows, scope);
    forall e | e in body
      ensures RowKey(scope, e.key) in rows
    {
      assert Live(rows, scope, e);
    }
    forall k | k in rows && k.scope == scope
      ensures Entry(k.key, Displayed(rows[k]), rows[k].isSecret, rows[k].secretRef) in body
    {
      assert Live(rows, scope, EntryOf(k.key, rows[k]));
    }
    assert forall i, j :: 0 <= i < j < |body| ==> KeyLess(body[i], body[j]);
  }

  /** A further version of the scope, numbered by how many there are. */
  function NextVersion(s: State, scope: Scope, comment: string, body: seq<Entry>): Snapshot {
    Snapshot(scope.component, if scope.environment == None then "" else scope.environment.value,
             CountOf(s.snapshots, scope) + 1, comment, body)
  }

  // ---- capturing ----

  /** A capture fails exactly when the rows cannot be listed, the scope cannot be locked, or the
      version it has to write cannot be inserted. It writes one unless the newest version can be read
      and shows the rows already. */
  lemma CaptureDecides(s: State, scope: Scope, comment: string, f: Faults)
    requires Numbered(s.snapshots)
    ensures var r := Step(s, Capture(scope, comment, f));
      var needed := f.readPrevious || Newest(s, scope) == None || Newest(s, scope).value.body != Body(s.rows, scope);
      && (r.ok <==> !f.list && !f.lock && !(needed && f.insert))
      && r.state.rows == s.rows && r.state.audit == s.audit
      && (!(r.ok && needed) ==> r.state == s)
      && (r.ok && needed ==>
            r.state.snapshots == s.snapshots + [NextVersion(s, scope, comment, Body(s.rows, scope))])
  {
    hide Body;
    LatestIsCount(s.snapshots, scope);
    VersionsAreExactly(s.snapshots, scope, Latest(s.snapshots, scope));
  }

  lemma CaptureTouchesNothingElse(s: State, scope: Scope, comment: string, f: Faults)
    ensures Captured(s, scope, comment, f).state.rows == s.rows
    ensures Captured(s, scope, comment, f).state.audit == s.audit
    ensures s.snapshots <= Captured(s, scope, comment, f).state.snapshots
  {
  }

  lemma NewestAfterCapture(s: State, scope: Scope, comment: string, f: Faults)
    requires Numbered(s.snapshots) && Captured(s, scope, comment, f).ok
    ensures var t := Captured(s, scope, comment, f).state;
      Newest(t, scope).Some? && Shows(Newest(t, scope).value.body, s.rows, scope)
  {
    hide Captured, Body, Shows;
    CaptureLeavesInStep(s, scope, comment, f);
    CaptureTouchesNothingElse(s, scope, comment, f);
    BodyShows(s.rows, scope);
  }

  // ---- saving ----

  /** A save fails exactly when the write does, or when a row other than the one it identifies holds the
      key, and then changes nothing. Otherwise the row is as given, the one it identifies has no other
      place, and no further row is touched; the audit trail has one more line, unless that fails, and
      neither it nor the versions show a secret's value. */
  lemma SaveWritesRow(s: State, previously: Option<RowKey>, at: RowKey, c: Config, f: Faults)
    ensures var r := Step(s, Upsert(previously, at, c, f));
      && (r.ok <==> !f.write && (at in s.rows ==> previously == Some(at)))
      && (!r.ok ==> r.state == s)
      && (r.ok ==>
            && at in r.state.rows && r.state.rows[at] == c
            && (previously.Some? && previously.value != at ==> previously.value !in r.state.rows)
            && SameRowsBut(s.rows, r.state.rows, {at} + if previously.Some? then {previously.value} else {})
            && r.state.audit == s.audit + if f.audit then []
                 else [AuditRow(at, if previously == None then "create" else "update", "", Displayed(c))])
  {
    hide Captured;
    CaptureTouchesNothingElse(Saved(s, previously, at, c, f), at.scope, SaveComment(at), f);
  }

  /** After a save without faults the newest version of the row's scope shows all its rows, the saved
      one among them. */
  lemma SaveIsRecorded(s: State, previously: Option<RowKey>, at: RowKey, c: Config)
    requires Numbered(s.snapshots) && Step(s, Upsert(previously, at, c, SOUND)).ok
    ensures var t := Step(s, Upsert(previously, at, c, SOUND)).state;
      && Newest(t, at.scope).Some?
      && Shows(Newest(t, at.scope).value.body, t.rows, at.scope)
      && Entry(at.key, Displayed(c), c.isSecret, c.secretRef) in Newest(t, at.scope).value.body
  {
    hide Captured, Newest;
    var saved := Saved(s, previously, at, c, SOUND);
    CaptureTouchesNothingElse(saved, at.scope, SaveComment(at), SOUND);
    SoundCaptureSucceeds(saved, at.scope, SaveComment(at));
    NewestAfterCapture(saved, at.scope, SaveComment(at), SOUND);
  }

  lemma SoundCaptureSucceeds(s: State, scope: Scope, comment: string)
    ensures Captured(s, scope, comment, SOUND).ok
  {
  }

  // ---- deleting ----

  /** A deletion fails exactly when there is no such row or the write fails, and then changes nothing.
      Otherwise the row is gone and no other is touched; the audit trail shows what was there. */
  lemma DeleteRemovesRow(s: State, at: RowKey, f: Faults)
    ensures var r := Step(s, Delete(at, f));
      && (r.ok <==> at in s.rows && !f.write)
      && (!r.ok ==> r.state == s)
      && (r.ok ==>
            && at !in r.state.rows
            && SameRowsBut(s.rows, r.state.rows, {at})
            && r.state.audit == s.audit + if f.audit then [] else [AuditRow(at, "delete", Displayed(s.rows[at]), "")])
  {
    hide Captured;
    if at in s.rows {
      CaptureTouchesNothingElse(Removed(s, at, f), at.scope, RemovalComment(at), f);
    }
  }

  /** After a deletion without faults the newest version of the scope shows all its rows and nothing
      under the deleted key. */
  lemma DeletionIsRecorded(s: State, at: RowKey)
    requires Numbered(s.snapshots) && Step(s, Delete(at, SOUND)).ok
    ensures var t := Step(s, Delete(at, SOUND)).state;
      && Newest(t, at.scope).Some?
      && Shows(Newest(t, at.scope).value.body, t.rows, at.scope)
      && forall e :: e in Newest(t, at.scope).value.body ==> e.key != at.key
  {
    hide Captured, Newest;
    var removed := Removed(s, at, SOUND);
    CaptureTouchesNothingElse(removed, at.scope, RemovalComment(at), SOUND);
    SoundCaptureSucceeds(removed, at.scope, RemovalComment(at));
    NewestAfterCapture(removed, at.scope, RemovalComment(at), SOUND);
  }

  // ---- rolling back ----

  /** The scope has a row for each entry and no other. A secret without a row gets no value, everything
      else what its entry says, and the rows of other scopes stay. */
  ghost predicate RestoredFrom(before: map<RowKey, Config>, after: map<RowKey, Config>, scope: Scope, body: seq<Entry>) {
    && (forall key :: RowKey(scope, key) in after <==> exists e :: e in body && e.key == key)
    && (forall e :: e in body ==>
          var k := RowKey(scope, e.key);
          k in after && after[k] == Config(if e.isSecret && k !in before then "" else e.value, e.isSecret, e.secretRef))
    && (forall k: RowKey :: k.scope != scope ==> (k in after <==> k in before) && (k in before ==> after[k] == before[k]))
  }

  lemma RestoreIsExact(rows: map<RowKey, Config>, scope: Scope, body: seq<Entry>)
    requires DistinctKeys(body)
    ensures RestoredFrom(rows, Restore(rows, scope, body), scope, body)
  {
    var after := Restore(rows, scope, body);
    forall e | e in body
      ensures Find(body, e.key) == Some(e) && RowKey(scope, e.key) in after
    {
      FindMember(body, e);
    }
  }

  /** A rollback fails exactly when a call does or the version is not one of 1 to the newest, and then
      changes nothing. Otherwise the rows are restored from the version, and its body is appended as a
      new one whose comment says where it came from. */
  lemma RollbackRestores(s: State, scope: Scope, version: int, comment: string, f: Faults)
    requires Numbered(s.snapshots)
    ensures var r := Step(s, Rollback(scope, version, comment, f));
      && (r.ok <==> !f.readPrevious && !f.write && !f.lock && !f.insert && 1 <= version <= CountOf(s.snapshots, scope))
      && (!r.ok ==> r.state == s)
      && (r.ok ==>
            && GetByVersion(s.snapshots, scope, version).Some?
            && RestoredFrom(s.rows, r.state.rows, scope, GetByVersion(s.snapshots, scope, version).value.body)
            && r.state.audit == s.audit
            && r.state.snapshots == s.snapshots + [NextVersion(s, scope, "回滚到 v" + Itoa(version) + "：" + comment,
                                                               GetByVersion(s.snapshots, scope, version).value.body)])
  {
    hide Latest, Itoa, Restore, Numbered, GetByVersion, RestoredFrom;
    LatestIsCount(s.snapshots, scope);
    VersionsAreExactly(s.snapshots, scope, version);
    if Step(s, Rollback(scope, version, comment, f)).ok {
      var target := GetByVersion(s.snapshots, scope, version).value;
      VersionsInRange(s.snapshots, target, scope);
      AscendingKeysDistinct(target.body);
      RestoreIsExact(s.rows, scope, target.body);
    }
  }

  /** What an operation notes beside the version it writes. */
  lemma VersionsCarryComments(s: State, op: Op)
    requires !op.Rollback? && |Step(s, op).state.snapshots| > |s.snapshots|
    ensures Step(s, op).state.snapshots[|s.snapshots|].comment ==
      match op
      case Upsert(_, at, _, _) => "配置变更 " + at.key
      case Delete(at, _) => "删除配置 " + at.key
      case Capture(_, comment, _) => comment
      case Rollback(_, _, comment, _) => comment
  {
    hide Body, Latest, GetByVersion;
  }
}
