/** What every run of config operations keeps: numbering, append-only history, agreement of the
    newest version with the live rows, and secrecy. */
module ConfigHistory {
  import opened Text
  import opened ConfigVersions

  function CountOf(history: seq<Snapshot>, scope: Scope): nat {
    if history == [] then 0
    else CountOf(history[..|history| - 1], scope) + (if Of(history[|history| - 1], scope) then 1 else 0)
  }

  /** Each snapshot is numbered one past the earlier ones of its scope, and holds a masked, sorted body. */
  ghost predicate Numbered(history: seq<Snapshot>)
    decreases |history|
  {
    history != [] ==>
      var front, sn := history[..|history| - 1], history[|history| - 1];
      && Numbered(front)
      && WellFormed(sn.body)
      && forall scope :: Of(sn, scope) ==> sn.version == CountOf(front, scope) + 1
  }

  lemma {:induction false} LatestIsCount(history: seq<Snapshot>, scope: Scope)
    requires Numbered(history)
    ensures Latest(history, scope) == CountOf(history, scope)
    decreases |history|
  {
    if history != [] {
      LatestIsCount(history[..|history| - 1], scope);
    }
  }

  lemma {:induction false} VersionsInRange(history: seq<Snapshot>, sn: Snapshot, scope: Scope)
    requires Numbered(history) && sn in history && Of(sn, scope)
    ensures 1 <= sn.version <= CountOf(history, scope) && WellFormed(sn.body)
    decreases |history|
  {
    var front, last := history[..|history| - 1], history[|history| - 1];
    assert history == front + [last];
    if sn in front {
      VersionsInRange(front, sn, scope);
    }
  }

  lemma {:induction false} FoundAtEnd(history: seq<Snapshot>, sn: Snapshot, scope: Scope, version: int)
    ensures GetByVersion(history + [sn], scope, version) ==
      match GetByVersion(history, scope, version)
      case Some(found) => Some(found)
      case None => if Of(sn, scope) && sn.version == version then Some(sn) else None
  {
    if history == [] {
      assert history + [sn] == [sn];
      assert [sn][1..] == [];
    } else {
      assert (history + [sn])[1..] == history[1..] + [sn];
      FoundAtEnd(history[1..], sn, scope, version);
    }
  }

  /** A scope's versions are exactly 1, 2, … up to the newest: each of them is found, no other is. */
  lemma {:induction false} VersionsAreExactly(history: seq<Snapshot>, scope: Scope, version: int)
    requires Numbered(history)
    ensures GetByVersion(history, scope, version).Some? <==> 1 <= version <= Latest(history, scope)
    decreases |history|
  {
    LatestIsCount(history, scope);
    if history != [] {
      var front, last := history[..|history| - 1], history[|history| - 1];
      VersionsAreExactly(front, scope, version);
      LatestIsCount(front, scope);
      FoundAtEnd(front, last, scope, version);
      assert history == front + [last];
    }
  }

  /** Each version has one snapshot: the one `GetByVersion` finds. */
  lemma {:induction false} VersionsUnique(history: seq<Snapshot>, sn: Snapshot, scope: Scope)
    requires Numbered(history) && sn in history && Of(sn, scope)
    ensures GetByVersion(history, scope, sn.version) == Some(sn)
    decreases |history|
  {
    var front, last := history[..|history| - 1], history[|history| - 1];
    assert history == front + [last];
    FoundAtEnd(front, last, scope, sn.version);
    if sn in front {
      VersionsUnique(front, sn, scope);
    } else {
      LatestIsCount(front, scope);
      VersionsAreExactly(front, scope, sn.version);
    }
  }

  // ---- every step keeps the numbering and appends at most one snapshot ----

  lemma SameScope(sn: Snapshot, a: Scope, b: Scope)
    requires Of(sn, a) && Of(sn, b)
    ensures a == b
  {
    ScopeKeysDistinct(a, b);
  }

  lemma BodyWellFormed(rows: map<RowKey, Config>, scope: Scope)
    ensures WellFormed(Body(rows, scope))
  {
    var body := Body(rows, scope);
    forall e | e in body && e.isSecret
      ensures e.value == MASK
    {
      assert Live(rows, scope, e);
    }
  }

  lemma AppendKeepsNumbering(s: State, scope: Scope, comment: string, body: seq<Entry>)
    requires Numbered(s.snapshots) && WellFormed(body)
    ensures Numbered(Appended(s, scope, comment, body).snapshots)
  {
    var after := Appended(s, scope, comment, body).snapshots;
    var sn := after[|after| - 1];
    assert after[..|after| - 1] == s.snapshots;
    LatestIsCount(s.snapshots, scope);
    forall other | Of(sn, other)
      ensures sn.version == CountOf(s.snapshots, other) + 1
    {
      SameScope(sn, scope, other);
    }
  }

  lemma CaptureKeepsNumbering(s: State, scope: Scope, comment: string, f: Faults)
    requires Numbered(s.snapshots)
    ensures Numbered(Captured(s, scope, comment, f).state.snapshots)
  {
    BodyWellFormed(s.rows, scope);
    AppendKeepsNumbering(s, scope, comment, Body(s.rows, scope));
  }

  lemma StepKeepsNumbering(s: State, op: Op)
    requires Numbered(s.snapshots)
    ensures Numbered(Step(s, op).state.snapshots)
  {
    hide Numbered, Captured, Restore, Latest, GetByVersion;
    match op
    case Upsert(previously, at, c, f) =>
      CaptureKeepsNumbering(Saved(s, previously, at, c, f), at.scope, SaveComment(at), f);
    case Delete(at, f) =>
      if at in s.rows {
        CaptureKeepsNumbering(Removed(s, at, f), at.scope, RemovalComment(at), f);
      }
    case Capture(scope, comment, f) => CaptureKeepsNumbering(s, scope, comment, f);
    case Rollback(scope, version, comment, f) =>
      if Step(s, op).ok {
        var target := GetByVersion(s.snapshots, scope, version).value;
        VersionsInRange(s.snapshots, target, scope);
        AppendKeepsNumbering(s.(rows := Restore(s.rows, scope, target.body)), scope,
                             RollbackComment(version, comment), target.body);
      }
  }

  lemma CaptureAppends(s: State, scope: Scope, comment: string, f: Faults)
    ensures var t := Captured(s, scope, comment, f).state;
      t == s || t == Appended(s, scope, comment, Body(s.rows, scope))
  {
    hide Body, Latest, GetByVersion, Appended;
  }

  /** History is only ever appended to, by at most one snapshot per operation, of the operation's scope. */
  lemma StepAppends(s: State, op: Op) returns (added: seq<Snapshot>)
    ensures Step(s, op).state.snapshots == s.snapshots + added
    ensures |added| <= 1 && forall sn :: sn in added ==> Of(sn, ScopeOf(op))
    ensures s.audit <= Step(s, op).state.audit
  {
    hide Body, Captured, Latest, GetByVersion, Restore, Others;
    match op {
      case Upsert(previously, at, c, f) => CaptureAppends(Saved(s, previously, at, c, f), at.scope, SaveComment(at), f);
      case Delete(at, f) =>
        if at in s.rows {
          CaptureAppends(Removed(s, at, f), at.scope, RemovalComment(at), f);
        }
      case Capture(scope, comment, f) => CaptureAppends(s, scope, comment, f);
      case Rollback(_, _, _, _) =>
    }
    added := Step(s, op).state.snapshots[|s.snapshots|..];
  }

  // ---- what one operation achieves ----

  ghost predicate InStep(s: State, scope: Scope) {
    var newest := GetByVersion(s.snapshots, scope, Latest(s.snapshots, scope));
    newest.Some? && newest.value.body == Body(s.rows, scope)
  }

  lemma AppendedIsNewest(s: State, scope: Scope, comment: string, body: seq<Entry>)
    requires Numbered(s.snapshots)
    ensures var t := Appended(s, scope, comment, body);
      && Latest(t.snapshots, scope) == Latest(s.snapshots, scope) + 1
      && GetByVersion(t.snapshots, scope, Latest(t.snapshots, scope)).Some?
      && GetByVersion(t.snapshots, scope, Latest(t.snapshots, scope)).value.body == body
  {
    var t := Appended(s, scope, comment, body).snapshots;
    var sn := t[|t| - 1];
    assert t[..|t| - 1] == s.snapshots;
    VersionsAreExactly(s.snapshots, scope, sn.version);
    FoundAtEnd(s.snapshots, sn, scope, sn.version);
  }

  lemma CaptureLeavesInStep(s: State, scope: Scope, comment: string, f: Faults)
    requires Numbered(s.snapshots) && Captured(s, scope, comment, f).ok
    ensures InStep(Captured(s, scope, comment, f).state, scope)
  {
    hide Numbered, Latest, GetByVersion;
    AppendedIsNewest(s, scope, comment, Body(s.rows, scope));
  }

  lemma RollbackLeavesInStep(s: State, scope: Scope, version: int, comment: string, f: Faults)
    requires Numbered(s.snapshots) && RolledBack(s, scope, version, comment, f).ok
    ensures InStep(RolledBack(s, scope, version, comment, f).state, scope)
    ensures GetByVersion(s.snapshots, scope, version).Some?
    ensures Body(RolledBack(s, scope, version, comment, f).state.rows, scope)
      == GetByVersion(s.snapshots, scope, version).value.body
  {
    hide Numbered, Latest, GetByVersion, Restore;
    var target := GetByVersion(s.snapshots, scope, version).value;
    VersionsInRange(s.snapshots, target, scope);
    RestoreReproducesBody(s.rows, scope, target.body);
    AppendedIsNewest(s.(rows := Restore(s.rows, scope, target.body)), scope,
                     RollbackComment(version, comment), target.body);
  }

  /** A successful capture or rollback leaves the newest version equal to the live rows. */
  lemma SuccessLeavesInStep(s: State, op: Op)
    requires Numbered(s.snapshots) && Step(s, op).ok && (op.Capture? || op.Rollback?)
    ensures InStep(Step(s, op).state, op.scope)
  {
    hide InStep, Captured, RolledBack, Numbered;
    match op
    case Capture(scope, comment, f) => CaptureLeavesInStep(s, scope, comment, f);
    case Rollback(scope, version, comment, f) => RollbackLeavesInStep(s, scope, version, comment, f);
  }

  /** Rolling back to a version makes its body current again, and the next capture adds nothing. */
  lemma RollbackThenCaptureAddsNothing(s: State, scope: Scope, version: int, comment: string, f: Faults, later: string)
    requires Numbered(s.snapshots) && RolledBack(s, scope, version, comment, f).ok
    ensures var t := RolledBack(s, scope, version, comment, f).state;
      && GetByVersion(s.snapshots, scope, version).Some?
      && Body(t.rows, scope) == GetByVersion(s.snapshots, scope, version).value.body
      && Captured(t, scope, later, SOUND) == Outcome(t, true)
  {
    hide Numbered, Latest, GetByVersion, RolledBack, Body;
    RollbackLeavesInStep(s, scope, version, comment, f);
    RollbackHasVersion(s, scope, version, comment, f);
  }

  lemma RollbackHasVersion(s: State, scope: Scope, version: int, comment: string, f: Faults)
    requires Numbered(s.snapshots) && RolledBack(s, scope, version, comment, f).ok
    ensures Latest(RolledBack(s, scope, version, comment, f).state.snapshots, scope) > 0
  {
    hide Numbered, Latest, GetByVersion, Restore;
    var target := GetByVersion(s.snapshots, scope, version).value;
    AppendedIsNewest(s.(rows := Restore(s.rows, scope, target.body)), scope,
                     RollbackComment(version, comment), target.body);
  }

  /** What a rollback does to the secrets of its scope: none keeps its value. A secret that has a row
      is left with the mask for a value, one that comes back is left with none. */
  lemma RollbackErasesSecrets(s: State, scope: Scope, version: int, comment: string, f: Faults, k: RowKey)
    requires Numbered(s.snapshots) && RolledBack(s, scope, version, comment, f).ok && k.scope == scope
    ensures var rows := RolledBack(s, scope, version, comment, f).state.rows;
      k in rows && rows[k].isSecret ==> rows[k].value == if k in s.rows then MASK else ""
  {
    hide Latest;
    var target := GetByVersion(s.snapshots, scope, version).value;
    VersionsInRange(s.snapshots, target, scope);
    assert Find(target.body, k.key).Some? ==> Find(target.body, k.key).value in target.body;
  }

  /** So rolling back to a version whose body the live rows have already, which should change
      nothing, changes exactly the secrets whose value is not the mask itself. */
  lemma RollbackToCurrentChangesIff(s: State, scope: Scope, version: int, comment: string, f: Faults, k: RowKey)
    requires Numbered(s.snapshots) && RolledBack(s, scope, version, comment, f).ok
    requires GetByVersion(s.snapshots, scope, version).Some?
    requires GetByVersion(s.snapshots, scope, version).value.body == Body(s.rows, scope)
    ensures var rows := RolledBack(s, scope, version, comment, f).state.rows;
      && (k in rows <==> k in s.rows)
      && (k in s.rows ==> (rows[k] == s.rows[k] <==> !(k.scope == scope && s.rows[k].isSecret && s.rows[k].value != MASK)))
  {
    hide Latest, GetByVersion, Numbered;
    var body := Body(s.rows, scope);
    AscendingKeysDistinct(body);
    if k.scope == scope && k in s.rows {
      var e := EntryOf(k.key, s.rows[k]);
      assert Live(s.rows, scope, e);
      FindMember(body, e);
    }
    if k.scope == scope && Find(body, k.key).Some? {
      assert Live(s.rows, scope, Find(body, k.key).value);
    }
  }

  ghost predicate StaysInScope(op: Op) {
    op.Upsert? && op.previously.Some? ==> op.previously.value.scope == op.at.scope
  }

  /** No operation touches the rows of another scope, unless it moves a row out of it. */
  lemma OtherRowsUntouched(s: State, op: Op, k: RowKey)
    requires k.scope != ScopeOf(op) && StaysInScope(op)
    ensures k in Step(s, op).state.rows <==> k in s.rows
    ensures k in s.rows ==> Step(s, op).state.rows[k] == s.rows[k]
  {
    hide Body, Latest, GetByVersion;
  }

  lemma AppendLeavesOthers(history: seq<Snapshot>, sn: Snapshot, other: Scope, version: int)
    requires !Of(sn, other)
    ensures GetByVersion(history + [sn], other, version) == GetByVersion(history, other, version)
    ensures Latest(history + [sn], other) == Latest(history, other)
  {
    FoundAtEnd(history, sn, other, version);
    var t := history + [sn];
    assert t[..|t| - 1] == history && t[|t| - 1] == sn;
  }

  /** No operation touches the versions of another scope. */
  lemma OtherVersionsUntouched(s: State, op: Op, other: Scope, version: int)
    requires other != ScopeOf(op)
    ensures GetByVersion(Step(s, op).state.snapshots, other, version) == GetByVersion(s.snapshots, other, version)
    ensures Latest(Step(s, op).state.snapshots, other) == Latest(s.snapshots, other)
  {
    var added := StepAppends(s, op);
    hide Step, ScopeOf, Latest, GetByVersion;
    if added == [] {
      assert s.snapshots + added == s.snapshots;
    } else {
      assert added == [added[0]] && added[0] in added;
      ScopeKeysDistinct(other, ScopeOf(op));
      AppendLeavesOthers(s.snapshots, added[0], other, version);
    }
  }

  /** A step that repeats the newest body of its scope is a rollback, or could not read that body. */
  lemma RepeatsOnlyByRollback(s: State, op: Op)
    requires Numbered(s.snapshots)
    requires |Step(s, op).state.snapshots| == |s.snapshots| + 1
    requires var t := Step(s, op).state.snapshots;
      var newest := GetByVersion(s.snapshots, ScopeOf(op), Latest(s.snapshots, ScopeOf(op)));
      newest.Some? && newest.value.body == t[|s.snapshots|].body
    ensures op.Rollback? || op.faults.readPrevious
  {
    VersionsAreExactly(s.snapshots, ScopeOf(op), Latest(s.snapshots, ScopeOf(op)));
  }

  // ---- runs ----

  ghost function Run(s: State, ops: seq<Op>): State
    decreases |ops|
  {
    if ops == [] then s else Step(Run(s, ops[..|ops| - 1]), ops[|ops| - 1]).state
  }

  /** The operations that appended the snapshots of a run, in order. */
  ghost function Authors(s: State, ops: seq<Op>): seq<Op>
    decreases |ops|
  {
    if ops == [] then []
    else
      var before, op := Run(s, ops[..|ops| - 1]), ops[|ops| - 1];
      Authors(s, ops[..|ops| - 1])
      + if |Step(before, op).state.snapshots| > |before.snapshots| then [op] else []
  }

  /** Over any run the versions of every scope stay 1..n and earlier snapshots never change. */
  lemma {:induction false} RunKeepsHistory(s: State, ops: seq<Op>)
    requires Numbered(s.snapshots)
    ensures Numbered(Run(s, ops).snapshots)
    ensures s.snapshots <= Run(s, ops).snapshots
    decreases |ops|
  {
    if ops != [] {
      var before, op := Run(s, ops[..|ops| - 1]), ops[|ops| - 1];
      RunKeepsHistory(s, ops[..|ops| - 1]);
      StepKeepsNumbering(before, op);
      var added := StepAppends(before, op);
    }
  }

  /** Consecutive versions of a scope share a body only if the later one was written by a rollback,
      or by a capture that could not read the earlier one. */
  ghost predicate RepeatsExplained(history: seq<Snapshot>, authors: seq<Op>) {
    && |authors| == |history|
    && forall i, j, scope :: 0 <= i < |history| && 0 <= j < |history|
         && Of(history[i], scope) && Of(history[j], scope)
         && history[j].version == history[i].version + 1 && history[i].body == history[j].body
         ==> authors[j].Rollback? || authors[j].faults.readPrevious
  }

  lemma NewestVersion(history: seq<Snapshot>, sn: Snapshot, scope: Scope)
    requires Numbered(history) && Numbered(history + [sn]) && Of(sn, scope)
    ensures sn.version == Latest(history, scope) + 1
  {
    var t := history + [sn];
    assert t[..|t| - 1] == history && t[|t| - 1] == sn;
    LatestIsCount(history, scope);
  }

  lemma NewestExplained(s: State, op: Op, sn: Snapshot, i: nat, scope: Scope)
    requires Numbered(s.snapshots) && Step(s, op).state.snapshots == s.snapshots + [sn] && Of(sn, ScopeOf(op))
    requires i < |s.snapshots| && Of(s.snapshots[i], scope) && Of(sn, scope)
    requires sn.version == s.snapshots[i].version + 1 && sn.body == s.snapshots[i].body
    ensures op.Rollback? || op.faults.readPrevious
  {
    hide Step, Numbered, Latest, GetByVersion, ScopeOf, Of;
    SameScope(sn, scope, ScopeOf(op));
    StepKeepsNumbering(s, op);
    NewestVersion(s.snapshots, sn, scope);
    assert s.snapshots[i] in s.snapshots;
    VersionsUnique(s.snapshots, s.snapshots[i], scope);
    RepeatsOnlyByRollback(s, op);
  }

  lemma StepExplained(s: State, op: Op, authors: seq<Op>, sn: Snapshot)
    requires Numbered(s.snapshots) && RepeatsExplained(s.snapshots, authors)
    requires Step(s, op).state.snapshots == s.snapshots + [sn] && Of(sn, ScopeOf(op))
    ensures RepeatsExplained(s.snapshots + [sn], authors + [op])
  {
    var t, after := s.snapshots + [sn], authors + [op];
    StepKeepsNumbering(s, op);
    forall i, j, scope | 0 <= i < |t| && 0 <= j < |t| && Of(t[i], scope) && Of(t[j], scope)
      && t[j].version == t[i].version + 1 && t[i].body == t[j].body
      ensures after[j].Rollback? || after[j].faults.readPrevious
    {
      assert t[..|t| - 1] == s.snapshots;
      if j == |s.snapshots| {
        NewestExplained(s, op, sn, i, scope);
      } else if i == |s.snapshots| {
        VersionsInRange(s.snapshots, t[j], scope);
        LatestIsCount(s.snapshots, scope);
        assert false;
      } else {
        assert t[i] == s.snapshots[i] && t[j] == s.snapshots[j] && after[j] == authors[j];
      }
    }
  }

  /** Over any run from an empty history: no version repeats the one before it except by rollback. */
  lemma {:induction false} RunRepeatsOnlyByRollback(s: State, ops: seq<Op>)
    requires s.snapshots == []
    ensures RepeatsExplained(Run(s, ops).snapshots, Authors(s, ops))
    decreases |ops|
  {
    if ops != [] {
      var front := ops[..|ops| - 1];
      var before, op := Run(s, front), ops[|ops| - 1];
      RunRepeatsOnlyByRollback(s, front);
      RunKeepsHistory(s, front);
      var added := StepAppends(before, op);
      hide Step;
      if added == [] {
        assert before.snapshots + added == before.snapshots;
        assert Authors(s, front) + [] == Authors(s, front);
      } else {
        assert added == [added[0]];
        StepExplained(before, op, Authors(s, front), added[0]);
      }
    }
  }

  // ---- history in step with the live rows ----

  /** Every scope's newest version is its live rows; a scope without versions has no rows. */
  ghost predicate Current(s: State) {
    forall scope :: if Latest(s.snapshots, scope) == 0 then Body(s.rows, scope) == [] else InStep(s, scope)
  }

  lemma BodyDependsOnScope(a: map<RowKey, Config>, b: map<RowKey, Config>, scope: Scope)
    requires forall k: RowKey :: k.scope == scope ==> (k in a <==> k in b) && (k in a ==> a[k] == b[k])
    ensures Body(a, scope) == Body(b, scope)
  {
    forall e
      ensures Live(a, scope, e) <==> Live(b, scope, e)
    {
      assert RowKey(scope, e.key).scope == scope;
    }
    BodyUnique(Body(a, scope), Body(b, scope), b, scope);
  }

  lemma SoundCaptureLeavesInStep(s: State, scope: Scope, comment: string)
    requires Numbered(s.snapshots)
    ensures InStep(Captured(s, scope, comment, SOUND).state, scope)
  {
    AppendedIsNewest(s, scope, comment, Body(s.rows, scope));
  }

  lemma SoundStepLeavesInStep(s: State, op: Op)
    requires Numbered(s.snapshots) && op.faults == SOUND && Step(s, op).ok
    ensures InStep(Step(s, op).state, ScopeOf(op))
  {
    hide Numbered, InStep, Captured, RolledBack;
    match op
    case Upsert(previously, at, c, f) => SoundCaptureLeavesInStep(Saved(s, previously, at, c, f), at.scope, SaveComment(at));
    case Delete(at, f) => SoundCaptureLeavesInStep(Removed(s, at, f), at.scope, RemovalComment(at));
    case Capture(_, _, _) => SuccessLeavesInStep(s, op);
    case Rollback(_, _, _, _) => SuccessLeavesInStep(s, op);
  }

  lemma FailureChangesNothing(s: State, op: Op)
    requires !Step(s, op).ok
    ensures Step(s, op).state == s
  {
  }

  /** Without faults, every operation that stays within its scope keeps all scopes current. */
  lemma StepKeepsCurrent(s: State, op: Op)
    requires Numbered(s.snapshots) && Current(s) && op.faults == SOUND && StaysInScope(op)
    ensures Current(Step(s, op).state)
  {
    if Step(s, op).ok {
      var t := Step(s, op).state;
      forall scope
        ensures if Latest(t.snapshots, scope) == 0 then Body(t.rows, scope) == [] else InStep(t, scope)
      {
        if scope == ScopeOf(op) {
          SoundStepLeavesInStep(s, op);
        } else {
          forall k: RowKey | k.scope == scope
            ensures (k in t.rows <==> k in s.rows) && (k in t.rows ==> t.rows[k] == s.rows[k])
          {
            OtherRowsUntouched(s, op, k);
          }
          BodyDependsOnScope(t.rows, s.rows, scope);
          OtherVersionsUntouched(s, op, scope, Latest(s.snapshots, scope));
        }
      }
    } else {
      FailureChangesNothing(s, op);
    }
  }

  /** Whole runs: the history describes the live rows of every scope at every moment. */
  lemma {:induction false} RunKeepsCurrent(s: State, ops: seq<Op>)
    requires Numbered(s.snapshots) && Current(s)
    requires forall op :: op in ops ==> op.faults == SOUND && StaysInScope(op)
    ensures Current(Run(s, ops))
    decreases |ops|
  {
    if ops != [] {
      var front := ops[..|ops| - 1];
      RunKeepsCurrent(s, front);
      RunKeepsHistory(s, front);
      assert ops[|ops| - 1] in ops;
      StepKeepsCurrent(Run(s, front), ops[|ops| - 1]);
    }
  }

  /** Saving a row under another scope is captured only there: the scope it left is no longer
      current. So a sound save keeps all scopes current exactly when it stays within its scope. */
  lemma MovingOutLeavesStale(s: State, op: Op)
    requires Numbered(s.snapshots) && Current(s) && op.faults == SOUND && op.Upsert? && Step(s, op).ok
    requires op.previously.Some? && op.previously.value in s.rows
    ensures Current(Step(s, op).state) <==> op.previously.value.scope == op.at.scope
  {
    var from := op.previously.value;
    var t := Step(s, op).state;
    if from.scope == op.at.scope {
      StepKeepsCurrent(s, op);
    } else {
      var e := EntryOf(from.key, s.rows[from]);
      assert Live(s.rows, from.scope, e) && e in Body(s.rows, from.scope);
      assert from !in t.rows;
      assert !Live(t.rows, from.scope, e) && e !in Body(t.rows, from.scope);
      OtherVersionsUntouched(s, op, from.scope, Latest(s.snapshots, from.scope));
    }
  }

  // ---- secrecy ----

  /** States that differ in nothing but the values of secrets. */
  ghost predicate Alike(a: State, b: State) {
    && a.snapshots == b.snapshots && a.audit == b.audit
    && AlikeRows(a.rows, b.rows)
  }

  ghost predicate AlikeConfig(c: Config, d: Config) {
    c.isSecret == d.isSecret && c.secretRef == d.secretRef && (!c.isSecret ==> c.value == d.value)
  }

  ghost predicate AlikeRows(a: map<RowKey, Config>, b: map<RowKey, Config>) {
    a.Keys == b.Keys && forall k :: k in a ==> AlikeConfig(a[k], b[k])
  }

  /** The same operation, up to the value of a secret. */
  ghost predicate AlikeOp(p: Op, q: Op) {
    if p.Upsert? && q.Upsert? then
      p.previously == q.previously && p.at == q.at && p.faults == q.faults && AlikeConfig(p.config, q.config)
    else p == q
  }

  lemma AlikeBodies(a: map<RowKey, Config>, b: map<RowKey, Config>, scope: Scope)
    requires AlikeRows(a, b)
    ensures Body(a, scope) == Body(b, scope)
  {
    forall e
      ensures Live(a, scope, e) <==> Live(b, scope, e)
    {
    }
    BodyUnique(Body(a, scope), Body(b, scope), b, scope);
  }

  lemma AlikeCaptures(a: State, b: State, scope: Scope, comment: string, f: Faults)
    requires Alike(a, b)
    ensures Alike(Captured(a, scope, comment, f).state, Captured(b, scope, comment, f).state)
    ensures Captured(a, scope, comment, f).ok == Captured(b, scope, comment, f).ok
  {
    AlikeBodies(a.rows, b.rows, scope);
  }

  lemma UpsertKeepsSecrets(a: State, b: State, previously: Option<RowKey>, at: RowKey, c: Config, d: Config, f: Faults)
    requires Alike(a, b) && AlikeConfig(c, d)
    ensures Alike(Upserted(a, previously, at, c, f).state, Upserted(b, previously, at, d, f).state)
    ensures Upserted(a, previously, at, c, f).ok == Upserted(b, previously, at, d, f).ok
  {
    SavesAlike(a, b, previously, at, c, d, f);
    hide Captured, Saved, Alike;
    AlikeCaptures(Saved(a, previously, at, c, f), Saved(b, previously, at, d, f), at.scope, SaveComment(at), f);
    OthersAlike(a, b, previously, at);
  }

  lemma OthersAlike(a: State, b: State, previously: Option<RowKey>, at: RowKey)
    requires Alike(a, b)
    ensures at in Others(a.rows, previously) <==> at in Others(b.rows, previously)
  {
  }

  lemma SavesAlike(a: State, b: State, previously: Option<RowKey>, at: RowKey, c: Config, d: Config, f: Faults)
    requires Alike(a, b) && AlikeConfig(c, d)
    ensures Alike(Saved(a, previously, at, c, f), Saved(b, previously, at, d, f))
  {
    assert AlikeRows(Others(a.rows, previously), Others(b.rows, previously));
  }

  lemma DeleteKeepsSecrets(a: State, b: State, at: RowKey, f: Faults)
    requires Alike(a, b)
    ensures Alike(Deleted(a, at, f).state, Deleted(b, at, f).state) && Deleted(a, at, f).ok == Deleted(b, at, f).ok
  {
    hide Captured;
    if at in a.rows {
      AlikeCaptures(Removed(a, at, f), Removed(b, at, f), at.scope, RemovalComment(at), f);
    }
  }

  lemma RollbackKeepsSecrets(a: State, b: State, scope: Scope, version: int, comment: string, f: Faults)
    requires Alike(a, b)
    ensures Alike(RolledBack(a, scope, version, comment, f).state, RolledBack(b, scope, version, comment, f).state)
    ensures RolledBack(a, scope, version, comment, f).ok == RolledBack(b, scope, version, comment, f).ok
  {
    hide Latest, GetByVersion, RollbackComment;
    var target := GetByVersion(a.snapshots, scope, version);
    if target.Some? {
      assert AlikeRows(Restore(a.rows, scope, target.value.body), Restore(b.rows, scope, target.value.body));
    }
  }

  lemma StepKeepsSecrets(a: State, b: State, p: Op, q: Op)
    requires Alike(a, b) && AlikeOp(p, q)
    ensures Alike(Step(a, p).state, Step(b, q).state) && Step(a, p).ok == Step(b, q).ok
  {
    hide Upserted, Deleted, Captured, RolledBack, Alike;
    match p
    case Upsert(previously, at, c, f) => UpsertKeepsSecrets(a, b, previously, at, c, q.config, f);
    case Delete(at, f) => DeleteKeepsSecrets(a, b, at, f);
    case Capture(scope, comment, f) => AlikeCaptures(a, b, scope, comment, f);
    case Rollback(scope, version, comment, f) => RollbackKeepsSecrets(a, b, scope, version, comment, f);
  }

  /** The history and the audit trail never depend on the value of a secret: two runs that differ
      only in secret values leave the same snapshots and the same audit rows. */
  lemma {:induction false} SecretsNeverReachHistory(a: State, b: State, ps: seq<Op>, qs: seq<Op>)
    requires Alike(a, b) && |ps| == |qs|
    requires forall i :: 0 <= i < |ps| ==> AlikeOp(ps[i], qs[i])
    ensures Run(a, ps).snapshots == Run(b, qs).snapshots && Run(a, ps).audit == Run(b, qs).audit
    ensures Alike(Run(a, ps), Run(b, qs))
    decreases |ps|
  {
    if ps != [] {
      var n := |ps| - 1;
      SecretsNeverReachHistory(a, b, ps[..n], qs[..n]);
      StepKeepsSecrets(Run(a, ps[..n]), Run(b, qs[..n]), ps[n], qs[n]);
    }
  }
}
