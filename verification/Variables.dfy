/** Shared variable groups, merged into trigger parameters with later groups winning. */
module Variables {

  datatype Entry = Entry(key: string, value: string)

  /** A group is the list of entries its body leaves the decoder with: none when it is not JSON, and
      whatever could be read when it is JSON of another shape. */
  type Group = seq<Entry>

  datatype Param = Param(name: string, value: string)

  function Flatten(groups: seq<Group>): seq<Entry> {
    if groups == [] then [] else groups[0] + Flatten(groups[1..])
  }

  lemma {:induction false} FlattenAppend(a: seq<Group>, b: seq<Group>)
    ensures Flatten(a + b) == Flatten(a) + Flatten(b)
  {
    if a == [] {
      assert a + b == b;
    } else {
      assert (a + b)[1..] == a[1..] + b;
      FlattenAppend(a[1..], b);
    }
  }

  // ---- what a merge is ----

  ghost predicate FirstAt(entries: seq<Entry>, key: string, i: int) {
    0 <= i < |entries| && entries[i].key == key && forall j :: 0 <= j < i ==> entries[j].key != key
  }

  ghost predicate LastAt(entries: seq<Entry>, key: string, i: int) {
    0 <= i < |entries| && entries[i].key == key && forall j :: i < j < |entries| ==> entries[j].key != key
  }

  predicate Names(out: seq<Param>, key: string) {
    exists i :: 0 <= i < |out| && out[i].name == key
  }

  /** One parameter for each non-empty key, with the value of its last entry, in the order in which
      the keys first appear. */
  ghost predicate IsMerge(entries: seq<Entry>, out: seq<Param>) {
    && (forall key :: Names(out, key) <==> key != "" && exists i :: FirstAt(entries, key, i))
    && (forall k :: 0 <= k < |out| ==> exists i :: LastAt(entries, out[k].name, i) && entries[i].value == out[k].value)
    && forall k, l, i, j :: 0 <= k < l < |out| && FirstAt(entries, out[k].name, i) && FirstAt(entries, out[l].name, j) ==> i < j
  }

  lemma MergeKey(entries: seq<Entry>, out: seq<Param>, k: nat)
    requires IsMerge(entries, out) && k < |out|
    ensures out[k].name != "" && exists i :: FirstAt(entries, out[k].name, i)
  {
    assert Names(out, out[k].name);
  }

  lemma MergeNamesDistinct(entries: seq<Entry>, out: seq<Param>)
    requires IsMerge(entries, out)
    ensures forall k, l :: 0 <= k < l < |out| ==> out[k].name != out[l].name
  {
    forall k, l | 0 <= k < l < |out|
      ensures out[k].name != out[l].name
    {
      MergeKey(entries, out, k);
      var i :| FirstAt(entries, out[k].name, i);
      assert !FirstAt(entries, out[l].name, i);
    }
  }

  // ---- the merge in place ----

  ghost predicate IsIndex(seen: map<string, nat>, out: seq<Param>) {
    && (forall key :: key in seen <==> Names(out, key))
    && forall key :: key in seen ==> seen[key] < |out| && out[seen[key]].name == key
  }

  lemma SkipEmptyKey(entries: seq<Entry>, out: seq<Param>, e: Entry)
    requires IsMerge(entries, out) && e.key == ""
    ensures IsMerge(entries + [e], out)
  {
    FirstAppend(entries, e);
    forall k | 0 <= k < |out|
      ensures exists i :: LastAt(entries + [e], out[k].name, i) && (entries + [e])[i].value == out[k].value
    {
      MergeKey(entries, out, k);
      LastKept(entries, e, out[k]);
    }
    forall k, l, i, j | 0 <= k < l < |out| && FirstAt(entries + [e], out[k].name, i) && FirstAt(entries + [e], out[l].name, j)
      ensures i < j
    {
      assert Names(out, out[k].name) && Names(out, out[l].name);
    }
  }

  /** Adding an entry changes where a key first appears only if it is new. */
  lemma FirstAppend(entries: seq<Entry>, e: Entry)
    ensures forall key, i :: FirstAt(entries, key, i) ==> FirstAt(entries + [e], key, i)
    ensures forall key, i :: FirstAt(entries + [e], key, i) && key != e.key ==> FirstAt(entries, key, i)
    ensures forall i :: FirstAt(entries + [e], e.key, i) ==> FirstAt(entries, e.key, i) || i == |entries|
    ensures exists i :: FirstAt(entries + [e], e.key, i)
  {
    var more := entries + [e];
    forall key, i | FirstAt(more, key, i) && i < |entries|
      ensures FirstAt(entries, key, i)
    {
      assert forall j :: 0 <= j <= i ==> more[j] == entries[j];
    }
    SomeFirst(more, e.key, |entries|);
  }

  lemma {:induction false} SomeFirst(entries: seq<Entry>, key: string, n: nat)
    requires n < |entries| && entries[n].key == key
    ensures exists i :: FirstAt(entries, key, i)
    decreases n
  {
    if j :| 0 <= j < n && entries[j].key == key {
      SomeFirst(entries, key, j);
    } else {
      assert FirstAt(entries, key, n);
    }
  }

  lemma LastKept(entries: seq<Entry>, e: Entry, p: Param)
    requires e.key != p.name && exists i :: LastAt(entries, p.name, i) && entries[i].value == p.value
    ensures exists i :: LastAt(entries + [e], p.name, i) && (entries + [e])[i].value == p.value
  {
    var i :| LastAt(entries, p.name, i) && entries[i].value == p.value;
    assert LastAt(entries + [e], p.name, i) && (entries + [e])[i].value == p.value;
  }

  lemma OverwriteMerges(entries: seq<Entry>, out: seq<Param>, e: Entry, at: nat)
    requires IsMerge(entries, out) && at < |out| && out[at].name == e.key
    ensures IsMerge(entries + [e], out[at := Param(e.key, e.value)])
  {
    var more, merged := entries + [e], out[at := Param(e.key, e.value)];
    FirstAppend(entries, e);
    MergeNamesDistinct(entries, out);
    MergeKey(entries, out, at);
    var first :| FirstAt(entries, e.key, first);
    assert forall k :: 0 <= k < |out| ==> merged[k].name == out[k].name;
    forall key
      ensures Names(merged, key) <==> key != "" && exists i :: FirstAt(more, key, i)
    {
      assert Names(merged, key) <==> Names(out, key);
    }
    forall k | 0 <= k < |merged|
      ensures exists i :: LastAt(more, merged[k].name, i) && more[i].value == merged[k].value
    {
      if k == at {
        assert LastAt(more, e.key, |entries|);
      } else {
        LastKept(entries, e, out[k]);
      }
    }
    assert !FirstAt(more, e.key, |entries|);
  }

  lemma AppendMerges(entries: seq<Entry>, out: seq<Param>, e: Entry)
    requires IsMerge(entries, out) && e.key != "" && !Names(out, e.key)
    ensures IsMerge(entries + [e], out + [Param(e.key, e.value)])
  {
    var more, merged := entries + [e], out + [Param(e.key, e.value)];
    FirstAppend(entries, e);
    assert forall k :: 0 <= k < |out| ==> merged[k] == out[k];
    forall key
      ensures Names(merged, key) <==> key != "" && exists i :: FirstAt(more, key, i)
    {
      assert merged[|out|].name == e.key;
      assert Names(merged, key) <==> Names(out, key) || key == e.key;
    }
    forall k | 0 <= k < |merged|
      ensures exists i :: LastAt(more, merged[k].name, i) && more[i].value == merged[k].value
    {
      if k == |out| {
        assert LastAt(more, e.key, |entries|);
      } else {
        assert Names(out, out[k].name);
        LastKept(entries, e, out[k]);
      }
    }
    forall k, l, i, j | 0 <= k < l < |merged| && FirstAt(more, merged[k].name, i) && FirstAt(more, merged[l].name, j)
      ensures i < j
    {
      assert Names(out, merged[k].name);
    }
  }

  /** Flattens the groups, overwriting the value of a key already met where it stands. */
  method GroupVariableParams(groups: seq<Group>) returns (out: seq<Param>)
    ensures IsMerge(Flatten(groups), out)
  {
    var seen: map<string, nat> := map[];
    out := [];
    hide IsMerge, Flatten;
    NothingMerged();
    for g := 0 to |groups|
      invariant IsIndex(seen, out) && IsMerge(Flatten(groups[..g]), out)
    {
      var entries := groups[g];
      ghost var before := Flatten(groups[..g]);
      assert before + entries[..0] == before;
      for i := 0 to |entries|
        invariant IsIndex(seen, out) && IsMerge(before + entries[..i], out)
      {
        var e := entries[i];
        assert before + entries[..i + 1] == before + entries[..i] + [e];
        if e.key == "" {
          SkipEmptyKey(before + entries[..i], out, e);
        } else if e.key in seen {
          OverwriteMerges(before + entries[..i], out, e, seen[e.key]);
          IndexOverwrite(seen, out, e);
          out := out[seen[e.key] := Param(e.key, e.value)];
        } else {
          AppendMerges(before + entries[..i], out, e);
          IndexAppend(seen, out, e);
          seen := seen[e.key := |out|];
          out := out + [Param(e.key, e.value)];
        }
      }
      assert entries[..|entries|] == entries;
      FlattenNext(groups, g);
    }
    assert groups[..|groups|] == groups;
  }

  lemma IndexOverwrite(seen: map<string, nat>, out: seq<Param>, e: Entry)
    requires e.key in seen && IsIndex(seen, out)
    ensures IsIndex(seen, out[seen[e.key] := Param(e.key, e.value)])
  {
    var more := out[seen[e.key] := Param(e.key, e.value)];
    assert forall k :: 0 <= k < |out| ==> more[k].name == out[k].name;
    assert forall key :: Names(more, key) <==> Names(out, key);
  }

  lemma IndexAppend(seen: map<string, nat>, out: seq<Param>, e: Entry)
    requires IsIndex(seen, out) && e.key !in seen
    ensures IsIndex(seen[e.key := |out|], out + [Param(e.key, e.value)])
  {
    var more := out + [Param(e.key, e.value)];
    assert more[|out|].name == e.key && forall k :: 0 <= k < |out| ==> more[k] == out[k];
    forall key
      ensures Names(more, key) <==> Names(out, key) || key == e.key
    {
    }
  }

  lemma NothingMerged()
    ensures IsMerge(Flatten([]), [])
  {
  }

  lemma FlattenNext(groups: seq<Group>, g: nat)
    requires g < |groups|
    ensures Flatten(groups[..g + 1]) == Flatten(groups[..g]) + groups[g]
  {
    assert groups[..g + 1] == groups[..g] + [groups[g]];
    FlattenAppend(groups[..g], [groups[g]]);
    assert [groups[g]][1..] == [];
  }

  // ---- layering ----

  /** What a list of entries sets, entry after entry. */
  function Settings(entries: seq<Entry>): map<string, string> {
    if entries == [] then map[]
    else
      var n := |entries| - 1;
      var e := entries[n];
      if e.key == "" then Settings(entries[..n]) else Settings(entries[..n])[e.key := e.value]
  }

  lemma {:induction false} SettingsOfLast(entries: seq<Entry>, key: string, i: int)
    requires LastAt(entries, key, i) && key != ""
    ensures key in Settings(entries) && Settings(entries)[key] == entries[i].value
    decreases |entries|
  {
    var n := |entries| - 1;
    if i < n {
      assert LastAt(entries[..n], key, i);
      SettingsOfLast(entries[..n], key, i);
    }
  }

  lemma {:induction false} SettingsHaveEntry(entries: seq<Entry>, key: string)
    requires key in Settings(entries)
    ensures key != "" && exists i :: LastAt(entries, key, i)
    decreases |entries|
  {
    var n := |entries| - 1;
    if entries[n].key == key && key != "" {
      assert LastAt(entries, key, n);
    } else {
      SettingsHaveEntry(entries[..n], key);
      var i :| LastAt(entries[..n], key, i);
      assert LastAt(entries, key, i);
    }
  }

  /** The parameters are exactly the settings. */
  lemma MergeIsSettings(entries: seq<Entry>, out: seq<Param>)
    requires IsMerge(entries, out)
    ensures forall name, value :: Param(name, value) in out <==> name in Settings(entries) && Settings(entries)[name] == value
  {
    forall name, value
      ensures Param(name, value) in out <==> name in Settings(entries) && Settings(entries)[name] == value
    {
      if Param(name, value) in out {
        var k :| 0 <= k < |out| && out[k] == Param(name, value);
        MergeKey(entries, out, k);
        var i :| LastAt(entries, name, i) && entries[i].value == value;
        SettingsOfLast(entries, name, i);
      }
      if name in Settings(entries) && Settings(entries)[name] == value {
        SettingsHaveEntry(entries, name);
        var i :| LastAt(entries, name, i);
        SettingsOfLast(entries, name, i);
        SomeFirst(entries, name, i);
        assert Names(out, name);
        var k :| 0 <= k < |out| && out[k].name == name;
        var j :| LastAt(entries, name, j) && entries[j].value == out[k].value;
        SettingsOfLast(entries, name, j);
        assert out[k] == Param(name, value);
      }
    }
  }

  /** Later entries override earlier ones key by key. */
  lemma {:induction false} SettingsOverride(a: seq<Entry>, b: seq<Entry>)
    ensures Settings(a + b) == Settings(a) + Settings(b)
    decreases |b|
  {
    if b == [] {
      assert a + b == a;
    } else {
      var n := |b| - 1;
      assert (a + b)[..|a + b| - 1] == a + b[..n];
      SettingsOverride(a, b[..n]);
    }
  }

  /** What the groups set together: each group overrides those before it. */
  function Layered(groups: seq<Group>): map<string, string> {
    if groups == [] then map[] else Settings(groups[0]) + Layered(groups[1..])
  }

  lemma {:induction false} LayersOverride(groups: seq<Group>)
    ensures Settings(Flatten(groups)) == Layered(groups)
  {
    if groups != [] {
      LayersOverride(groups[1..]);
      SettingsOverride(groups[0], Flatten(groups[1..]));
    }
  }
}
