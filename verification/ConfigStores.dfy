/** The configuration service over its two tables, operation by operation as it runs. */
module ConfigStores {
  import opened Text
  import opened Ordering
  import opened ConfigVersions
  import opened ConfigHistory

  datatype Row = Row(key: string, config: Config)

  ghost predicate DistinctRows(list: seq<Row>) {
    forall i, j :: 0 <= i < j < |list| ==> list[i].key != list[j].key
  }

  /** Builds the body of a listing: mask, then sort by key. */
  method BuildConfigSnapshot(list: seq<Row>, ghost rows: map<RowKey, Config>, ghost scope: Scope) returns (body: seq<Entry>)
    requires DistinctRows(list)
    requires forall r: Row :: r in list <==> RowKey(scope, r.key) in rows && rows[RowKey(scope, r.key)] == r.config
    ensures body == Body(rows, scope)
  {
    var entries: seq<Entry> := [];
    var i := 0;
    while i < |list|
      invariant 0 <= i <= |list| == |list|
      invariant |entries| == i
      invariant forall j :: 0 <= j < i ==> entries[j] == EntryOf(list[j].key, list[j].config)
    {
      var r := list[i];
      var value := r.config.value;
      if r.config.isSecret {
        value := MASK;
      }
      entries := entries + [Entry(r.key, value, r.config.isSecret, r.config.secretRef)];
      i := i + 1;
    }
    forall e
      ensures e in entries <==> Live(rows, scope, e)
    {
      if e in entries {
        var j :| 0 <= j < |entries| && entries[j] == e;
        assert list[j] in list;
      }
      if Live(rows, scope, e) {
        var r := Row(e.key, rows[RowKey(scope, e.key)]);
        var j :| 0 <= j < |list| && list[j] == r;
        assert entries[j] == e;
      }
    }
    SortedIsBody(entries, rows, scope);
    body := SortStable(entries, KeyLess);
    BodyUnique(body, Body(rows, scope), rows, scope);
  }

  ghost predicate Named(entries: seq<Entry>, key: string) {
    exists j :: 0 <= j < |entries| && entries[j].key == key
  }

  /** Every entry has its row; the other rows are as before. */
  ghost predicate Written(before: map<RowKey, Config>, written: map<RowKey, Config>, scope: Scope, entries: seq<Entry>) {
    && (forall k :: k in written <==> k in before || (k.scope == scope && Named(entries, k.key)))
    && (forall j :: 0 <= j < |entries| ==>
         var k := RowKey(scope, entries[j].key);
         written[k] == Restored(k in before, entries[j]))
    && (forall k :: k in before && !(k.scope == scope && Named(entries, k.key)) ==> written[k] == before[k])
  }

  lemma NothingWritten(rows: map<RowKey, Config>, scope: Scope)
    ensures Written(rows, rows, scope, []) && forall key :: !Named([], key)
  {
  }

  lemma NamedNext(entries: seq<Entry>, i: nat)
    requires DistinctKeys(entries) && i < |entries|
    ensures !Named(entries[..i], entries[i].key)
    ensures forall key :: Named(entries[..i + 1], key) <==> Named(entries[..i], key) || key == entries[i].key
  {
    var now, next := entries[..i], entries[..i + 1];
    assert next == now + [entries[i]] && next[i] == entries[i];
    forall key
      ensures Named(next, key) <==> Named(now, key) || key == entries[i].key
    {
      if Named(now, key) {
        var j :| 0 <= j < |now| && now[j].key == key;
        assert next[j].key == key;
      }
    }
  }

  /** A further entry, whose key has not been written yet, goes over the row that was there. */
  lemma WriteNext(before: map<RowKey, Config>, written: map<RowKey, Config>, scope: Scope, entries: seq<Entry>, i: nat)
    requires DistinctKeys(entries) && i < |entries| && Written(before, written, scope, entries[..i])
    ensures var k := RowKey(scope, entries[i].key);
      && (k in written <==> k in before)
      && Written(before, written[k := Restored(k in before, entries[i])], scope, entries[..i + 1])
    ensures forall key :: Named(entries[..i + 1], key) <==> Named(entries[..i], key) || key == entries[i].key
  {
    hide Named, DistinctKeys, Restored;
    NamedNext(entries, i);
    var now, next := entries[..i], entries[..i + 1];
    forall j | 0 <= j < i
      ensures next[j] == now[j] && next[j].key != entries[i].key
    {
      EntryNamed(now, j);
    }
    assert next[i] == entries[i];
  }

  lemma EntryNamed(entries: seq<Entry>, j: nat)
    requires j < |entries|
    ensures Named(entries, entries[j].key)
  {
  }

  lemma RestoredRows(before: map<RowKey, Config>, written: map<RowKey, Config>, after: map<RowKey, Config>,
                     scope: Scope, entries: seq<Entry>)
    requires DistinctKeys(entries) && Written(before, written, scope, entries)
    requires forall k :: k in after <==> k in written && (k.scope == scope ==> Named(entries, k.key))
    requires forall k :: k in after ==> after[k] == written[k]
    ensures after == Restore(before, scope, entries)
  {
    var restored := Restore(before, scope, entries);
    forall k
      ensures k in after <==> k in restored
      ensures k in after ==> after[k] == restored[k]
    {
      if k.scope == scope && Named(entries, k.key) {
        var j :| 0 <= j < |entries| && entries[j].key == k.key;
        assert k == RowKey(scope, entries[j].key);
        FindMember(entries, entries[j]);
      }
    }
  }

  class ConfigStore {
    var rows: map<RowKey, Config>
    var snapshots: seq<Snapshot>
    var audit: seq<AuditRow>

    ghost function View(): State
      reads this
    {
      State(rows, snapshots, audit)
    }

    constructor ()
      ensures View() == State(map[], [], [])
    {
      rows, snapshots, audit := map[], [], [];
    }

    method ListAll(scope: Scope) returns (list: seq<Row>)
      ensures DistinctRows(list)
      ensures forall r: Row :: r in list <==> RowKey(scope, r.key) in rows && rows[RowKey(scope, r.key)] == r.config
    {
      list := [];
      var pending := rows.Keys;
      while pending != {}
        invariant pending <= rows.Keys
        invariant DistinctRows(list)
        invariant forall r: Row :: r in list <==>
          RowKey(scope, r.key) in rows.Keys - pending && rows[RowKey(scope, r.key)] == r.config
        decreases pending
      {
        var k :| k in pending;
        pending := pending - {k};
        if k.scope == scope {
          forall i | 0 <= i < |list|
            ensures list[i].key != k.key
          {
            assert list[i] in list;
          }
          list := list + [Row(k.key, rows[k])];
        }
      }
    }

    method Append(scope: Scope, comment: string, body: seq<Entry>)
      modifies this`snapshots
      ensures View() == Appended(old(View()), scope, comment, body)
    {
      var latest := Latest(snapshots, scope);
      snapshots := snapshots + [Snapshot(scope.component, ScopeKeyOf(scope.environment), latest + 1, comment, body)];
    }

    method Capture(scope: Scope, comment: string, f: Faults) returns (ok: bool)
      modifies this`snapshots
      ensures Outcome(View(), ok) == Captured(old(View()), scope, comment, f)
    {
      if f.list {
        return false;
      }
      var list := ListAll(scope);
      var body := BuildConfigSnapshot(list, rows, scope);
      if f.lock {
        return false;
      }
      var latest := Latest(snapshots, scope);
      if latest > 0 && !f.readPrevious {
        var previous := GetByVersion(snapshots, scope, latest);
        if previous.Some? && previous.value.body == body {
          return true;
        }
      }
      if f.insert {
        return false;
      }
      Append(scope, comment, body);
      ok := true;
    }

    /** Writes every entry, over the row it finds or as a new one, and collects the keys. */
    method WriteEntries(scope: Scope, entries: seq<Entry>) returns (keep: set<string>)
      requires DistinctKeys(entries)
      modifies this`rows
      ensures forall key :: key in keep <==> Named(entries, key)
      ensures Written(old(rows), rows, scope, entries)
    {
      hide Written, Named, DistinctKeys;
      keep := {};
      NothingWritten(rows, scope);
      var i := 0;
      while i < |entries|
        invariant 0 <= i <= |entries|
        invariant forall key :: key in keep <==> Named(entries[..i], key)
        invariant Written(old(rows), rows, scope, entries[..i])
      {
        var e := entries[i];
        var k := RowKey(scope, e.key);
        WriteNext(old(rows), rows, scope, entries, i);
        keep := keep + {e.key};
        if k !in rows {
          var c := Config(e.value, e.isSecret, e.secretRef);
          if e.isSecret {
            c := c.(value := "");
          }
          rows := rows[k := c];
        } else {
          rows := rows[k := Config(e.value, e.isSecret, e.secretRef)];
        }
        i := i + 1;
      }
      assert entries[..i] == entries;
    }

    /** Deletes the scope's rows whose keys are not to be kept. */
    method DeleteStale(scope: Scope, keep: set<string>)
      modifies this`rows
      ensures rows == map k | k in old(rows) && (k.scope == scope ==> k.key in keep) :: old(rows)[k]
    {
      var stale := set k | k in rows && k.scope == scope;
      while stale != {}
        invariant stale <= old(rows).Keys && forall k :: k in stale ==> k.scope == scope
        invariant forall k :: k in rows <==>
          k in old(rows) && (k.scope == scope ==> k in stale || k.key in keep)
        invariant forall k :: k in rows ==> rows[k] == old(rows)[k]
        decreases stale
      {
        var k :| k in stale;
        stale := stale - {k};
        if k.key !in keep {
          rows := rows - {k};
        }
      }
    }

    /** Makes the scope's rows match the entries. */
    method ApplyEntries(scope: Scope, entries: seq<Entry>)
      requires DistinctKeys(entries)
      modifies this`rows
      ensures rows == Restore(old(rows), scope, entries)
    {
      var keep := WriteEntries(scope, entries);
      ghost var written := rows;
      DeleteStale(scope, keep);
      RestoredRows(old(rows), written, rows, scope, entries);
    }

    /** Restores version `version` and appends it as a new version; on any failure the transaction
        leaves both tables as they were. */
    method Rollback(scope: Scope, version: int, comment: string, f: Faults) returns (ok: bool)
      requires Numbered(snapshots)
      modifies this`rows, this`snapshots
      ensures Outcome(View(), ok) == RolledBack(old(View()), scope, version, comment, f)
    {
      if f.readPrevious {
        return false;
      }
      var target := GetByVersion(snapshots, scope, version);
      if target == None {
        return false;
      }
      VersionsInRange(snapshots, target.value, scope);
      AscendingKeysDistinct(target.value.body);
      if f.write {
        return false;
      }
      var before := rows;
      ApplyEntries(scope, target.value.body);
      if f.lock || f.insert {
        rows := before;
        return false;
      }
      Append(scope, RollbackComment(version, comment), target.value.body);
      ok := true;
    }

    method LogHistory(row: AuditRow, f: Faults)
      modifies this`audit
      ensures View() == Logged(old(View()), row, f)
    {
      if !f.audit {
        audit := audit + [row];
      }
    }

    method Upsert(previously: Option<RowKey>, at: RowKey, config: Config, f: Faults) returns (ok: bool)
      modifies this
      ensures Outcome(View(), ok) == Upserted(old(View()), previously, at, config, f)
    {
      var action := "update";
      if previously == None {
        action := "create";
      }
      if f.write {
        return false;
      }
      var others := Others(rows, previously);
      if at in others {
        return false;
      }
      rows := others[at := config];
      var newValue := config.value;
      if config.isSecret {
        newValue := MASK;
      }
      LogHistory(AuditRow(at, action, "", newValue), f);
      var captured := Capture(at.scope, SaveComment(at), f);
      ok := true;
    }

    method Delete(at: RowKey, f: Faults) returns (ok: bool)
      modifies this
      ensures Outcome(View(), ok) == Deleted(old(View()), at, f)
    {
      if at !in rows || f.write {
        return false;
      }
      var last := rows[at];
      rows := rows - {at};
      var oldValue := last.value;
      if last.isSecret {
        oldValue := MASK;
      }
      LogHistory(AuditRow(at, "delete", oldValue, ""), f);
      var captured := Capture(at.scope, RemovalComment(at), f);
      ok := true;
    }
  }
}
