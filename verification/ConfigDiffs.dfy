/** Comparing two versions of a scope's configuration, key by key. */
module ConfigDiffs {
  import opened Text
  import opened Ordering
  import opened ConfigVersions
  import L = Listings

  datatype KeyDiff = KeyDiff(key: string, change: L.Change, from: string, to: string)

  datatype Summary = Summary(added: nat, removed: nat, modified: nat)

  datatype ConfigDiff = ConfigDiff(fromVersion: int, toVersion: int, keys: seq<KeyDiff>, summary: Summary, identical: bool)

  /** What is compared of an entry. Whether it is a secret is not. */
  function Shown(e: Entry): L.Item<string> {
    L.Item(e.key, [L.Field("value", e.value), L.Field("secretRef", e.secretRef)])
  }

  function Items(entries: seq<Entry>): (r: seq<L.Item<string>>)
    ensures |r| == |entries| && forall i :: 0 <= i < |entries| ==> r[i] == Shown(entries[i])
  {
    seq(|entries|, i requires 0 <= i < |entries| => Shown(entries[i]))
  }

  function ValueOf(entries: seq<Entry>, key: string): string {
    match Find(entries, key)
    case None => ""
    case Some(e) => e.value
  }

  /** How an entry of the comparison is rendered: a modified key by the first of its changes. */
  function Row(from: seq<Entry>, to: seq<Entry>, d: L.Entry<string>): KeyDiff {
    match d.change
    case Added => KeyDiff(d.key, L.Added, "", ValueOf(to, d.key))
    case Removed => KeyDiff(d.key, L.Removed, ValueOf(from, d.key), "")
    case Modified =>
      if d.fields == [] then KeyDiff(d.key, L.Modified, "", "")
      else KeyDiff(d.key, L.Modified, d.fields[0].from, d.fields[0].to)
  }

  function Rows(from: seq<Entry>, to: seq<Entry>, ds: seq<L.Entry<string>>): (r: seq<KeyDiff>)
    ensures |r| == |ds| && forall i :: 0 <= i < |ds| ==> r[i] == Row(from, to, ds[i])
  {
    seq(|ds|, i requires 0 <= i < |ds| => Row(from, to, ds[i]))
  }

  function SummaryOf(ds: seq<L.Entry<string>>): Summary {
    Summary(L.CountOf(ds, L.Added), L.CountOf(ds, L.Removed), L.CountOf(ds, L.Modified))
  }

  ghost predicate Renders(from: seq<Entry>, to: seq<Entry>, ds: seq<L.Entry<string>>, d: ConfigDiff) {
    && L.IsListing(Items(from), Items(to), StrLess, ds)
    && d.keys == Rows(from, to, ds) && d.summary == SummaryOf(ds) && (d.identical <==> d.keys == [])
  }

  /** The comparison of two bodies: the rendered listing of every key that calls for an entry, and
      its counts. */
  ghost predicate IsDiff(from: seq<Entry>, to: seq<Entry>, d: ConfigDiff) {
    exists ds :: Renders(from, to, ds, d)
  }

  lemma KeyOrder()
    ensures StrictOrder<string>(StrLess)
    ensures forall a: string, b: string :: a != b ==> StrLess(a, b) || StrLess(b, a)
  {
    StrLessIsStrictOrder();
    forall a: string, b: string | a != b
      ensures StrLess(a, b) || StrLess(b, a)
    {
      StrLessTrichotomy(a, b);
    }
  }

  lemma BodiesUniform(from: seq<Entry>, to: seq<Entry>)
    ensures L.Uniform(Items(from), Items(to))
  {
  }

  lemma ItemsDistinct(entries: seq<Entry>)
    requires DistinctKeys(entries)
    ensures L.DistinctKeys(Items(entries))
  {
  }

  // ---- the laws ----

  function FlipKey(k: KeyDiff): KeyDiff {
    KeyDiff(k.key, L.FlipChange(k.change), k.to, k.from)
  }

  function FlipKeys(ks: seq<KeyDiff>): (r: seq<KeyDiff>)
    ensures |r| == |ks| && forall i :: 0 <= i < |ks| ==> r[i] == FlipKey(ks[i])
  {
    seq(|ks|, i requires 0 <= i < |ks| => FlipKey(ks[i]))
  }

  lemma {:induction false} FirstFieldFlips(fs: seq<L.FieldChange>)
    requires fs != []
    ensures L.FlipFields(fs) != [] && L.FlipFields(fs)[0] == L.FieldChange(fs[0].field, fs[0].to, fs[0].from)
    decreases |fs|
  {
    if |fs| > 1 {
      FirstFieldFlips(fs[..|fs| - 1]);
    }
  }

  lemma RowFlips(from: seq<Entry>, to: seq<Entry>, d: L.Entry<string>)
    ensures Row(to, from, L.FlipEntry(d)) == FlipKey(Row(from, to, d))
  {
    hide Find;
    if d.fields != [] {
      FirstFieldFlips(d.fields);
    }
  }

  /** The comparison of a version pair the other way round: same keys in the same order, added and
      removed exchanged, both sides of every change exchanged. */
  lemma ConfigDiffIsDual(from: seq<Entry>, to: seq<Entry>, d: ConfigDiff, e: ConfigDiff)
    requires IsDiff(from, to, d) && IsDiff(to, from, e)
    requires e.fromVersion == d.toVersion && e.toVersion == d.fromVersion
    ensures e == ConfigDiff(d.toVersion, d.fromVersion, FlipKeys(d.keys),
                            Summary(d.summary.removed, d.summary.added, d.summary.modified), d.identical)
  {
    hide Row, L.FlipEntry, L.IsListing, L.CountOf, StrLess;
    var ds :| Renders(from, to, ds, d);
    var es :| Renders(to, from, es, e);
    KeyOrder();
    BodiesUniform(from, to);
    L.ListingIsDual(Items(from), Items(to), StrLess, ds, es);
    forall i | 0 <= i < |ds|
      ensures e.keys[i] == FlipKey(d.keys[i])
    {
      RowFlips(from, to, ds[i]);
    }
    L.FlipCount(ds, L.Added);
    L.FlipCount(ds, L.Removed);
    L.FlipCount(ds, L.Modified);
  }

  /** The newer version has as many keys as the older, plus the added, minus the removed. */
  lemma ConfigDiffConserves(from: seq<Entry>, to: seq<Entry>, d: ConfigDiff)
    requires DistinctKeys(from) && DistinctKeys(to) && IsDiff(from, to, d)
    ensures |to| == |from| + d.summary.added - d.summary.removed
  {
    hide L.IsListing, L.CountOf, StrLess;
    var ds :| Renders(from, to, ds, d);
    KeyOrder();
    ItemsDistinct(from);
    ItemsDistinct(to);
    L.ItemsConserved(Items(from), Items(to), StrLess, ds);
  }

  lemma {:induction false} SideIsFind(entries: seq<Entry>, key: string)
    ensures L.Side(Items(entries), key) ==
      match Find(entries, key)
      case None => None
      case Some(e) => Some(Shown(e).fields)
  {
    if entries != [] {
      assert Items(entries)[1..] == Items(entries[1..]);
      SideIsFind(entries[1..], key);
    }
  }

  predicate EntryShownAlike(a: Option<Entry>, b: Option<Entry>) {
    match (a, b)
    case (None, None) => true
    case (Some(e), Some(f)) => e.value == f.value && e.secretRef == f.secretRef
    case _ => false
  }

  /** Both sides have the same keys with the same values and references. */
  ghost predicate ShownAlike(from: seq<Entry>, to: seq<Entry>) {
    forall key :: EntryShownAlike(Find(from, key), Find(to, key))
  }

  /** Two versions are reported identical exactly when their keys, values and references are. */
  lemma ConfigIdenticalIff(from: seq<Entry>, to: seq<Entry>, d: ConfigDiff)
    requires IsDiff(from, to, d)
    ensures d.identical <==> ShownAlike(from, to)
  {
    var ds :| Renders(from, to, ds, d);
    AgreeIsShownAlike(from, to);
    hide L.IsListing, L.Agree, StrLess, ShownAlike;
    BodiesUniform(from, to);
    L.EmptyIffAgree(Items(from), Items(to), StrLess, ds);
  }

  lemma AgreeIsShownAlike(from: seq<Entry>, to: seq<Entry>)
    ensures L.Agree(Items(from), Items(to)) <==> ShownAlike(from, to)
  {
    forall key
      ensures L.Side(Items(from), key) == L.Side(Items(to), key) <==> EntryShownAlike(Find(from, key), Find(to, key))
    {
      SideIsFind(from, key);
      SideIsFind(to, key);
      hide Find, L.Side;
      if Find(from, key).Some? && Find(to, key).Some? {
        FieldsShown(Find(from, key).value, Find(to, key).value);
      }
    }
  }

  lemma FieldsShown(e: Entry, f: Entry)
    ensures Shown(e).fields == Shown(f).fields <==> e.value == f.value && e.secretRef == f.secretRef
  {
    if Shown(e).fields == Shown(f).fields {
      assert Shown(e).fields[0] == Shown(f).fields[0] && Shown(e).fields[1] == Shown(f).fields[1];
    }
  }

  ghost predicate HasKey(entries: seq<Entry>, key: string) {
    exists e :: e in entries && e.key == key
  }

  /** Entries of one key that differ, and what is shown of the difference: the values if these differ, and
      otherwise the references. */
  ghost predicate Differ(a: Entry, b: Entry, key: string, from: string, to: string) {
    && a.key == key && b.key == key
    && if a.value != b.value then from == a.value && to == b.value
       else a.secretRef != b.secretRef && from == a.secretRef && to == b.secretRef
  }

  ghost predicate ModifiedBetween(from: seq<Entry>, to: seq<Entry>, k: KeyDiff) {
    exists a, b :: a in from && b in to && Differ(a, b, k.key, k.from, k.to)
  }

  lemma FindIs(entries: seq<Entry>, key: string)
    requires DistinctKeys(entries)
    ensures Find(entries, key) == None <==> !HasKey(entries, key)
    ensures forall e :: e in entries && e.key == key ==> Find(entries, key) == Some(e)
  {
    forall e | e in entries && e.key == key
      ensures Find(entries, key) == Some(e)
    {
      FindMember(entries, e);
    }
  }

  lemma CallsFor(from: seq<Entry>, to: seq<Entry>, d: L.Entry<string>)
    requires L.Delta(Items(from), Items(to), d)
    ensures (d.change == L.Added && d.fields == [] && Find(from, d.key) == None && Find(to, d.key).Some?)
      || (d.change == L.Removed && d.fields == [] && Find(from, d.key).Some? && Find(to, d.key) == None)
      || (d.change == L.Modified && Find(from, d.key).Some? && Find(to, d.key).Some? && d.fields != []
          && d.fields == L.FieldChanges(Shown(Find(from, d.key).value).fields, Shown(Find(to, d.key).value).fields))
  {
    SideIsFind(from, d.key);
    SideIsFind(to, d.key);
    hide Find, L.Side, L.FieldChanges, Items;
  }

  lemma RowSays(from: seq<Entry>, to: seq<Entry>, d: L.Entry<string>)
    requires DistinctKeys(from) && DistinctKeys(to) && L.Delta(Items(from), Items(to), d)
    ensures KeyListed(from, to, Row(from, to, d)) && Row(from, to, d).key == d.key
  {
    CallsFor(from, to, d);
    FindIs(from, d.key);
    FindIs(to, d.key);
    if d.change == L.Modified {
      var a, b := Find(from, d.key).value, Find(to, d.key).value;
      EntryFieldsAreChanges(a, b);
      hide L.Delta, L.FieldChanges, Find, DistinctKeys;
      assert Differ(a, b, d.key, d.fields[0].from, d.fields[0].to);
    }
  }

  /** What a key is listed as, said of the entries. */
  ghost predicate KeyListed(from: seq<Entry>, to: seq<Entry>, k: KeyDiff) {
    match k.change
    case Added => !HasKey(from, k.key) && k.from == "" && exists e :: e in to && e.key == k.key && e.value == k.to
    case Removed => !HasKey(to, k.key) && k.to == "" && exists e :: e in from && e.key == k.key && e.value == k.from
    case Modified => ModifiedBetween(from, to, k)
  }

  lemma ListedOnce(from: seq<Entry>, to: seq<Entry>, k: KeyDiff, l: KeyDiff)
    requires DistinctKeys(from) && DistinctKeys(to) && KeyListed(from, to, k) && KeyListed(from, to, l) && k.key == l.key
    ensures k == l
  {
    FindIs(from, k.key);
    FindIs(to, k.key);
    hide DistinctKeys, Find;
  }

  lemma CalledFor(from: seq<Entry>, to: seq<Entry>, k: KeyDiff) returns (d: L.Entry<string>)
    requires DistinctKeys(from) && DistinctKeys(to) && KeyListed(from, to, k)
    ensures L.Delta(Items(from), Items(to), d) && d.key == k.key
  {
    hide DistinctKeys, Find, L.Side, Items;
    FindIs(from, k.key);
    FindIs(to, k.key);
    if k.change == L.Modified {
      var a, b :| a in from && b in to && Differ(a, b, k.key, k.from, k.to);
      d := ModificationCalledFor(from, to, a, b, k);
    } else {
      SideIsFind(from, k.key);
      SideIsFind(to, k.key);
      d := L.Entry(k.key, k.change, []);
    }
  }

  lemma ModificationCalledFor(from: seq<Entry>, to: seq<Entry>, a: Entry, b: Entry, k: KeyDiff) returns (d: L.Entry<string>)
    requires Differ(a, b, k.key, k.from, k.to) && Find(from, k.key) == Some(a) && Find(to, k.key) == Some(b)
    ensures L.Delta(Items(from), Items(to), d) && d.key == k.key
  {
    SideIsFind(from, k.key);
    SideIsFind(to, k.key);
    FieldsShown(a, b);
    L.NoFieldChangesIffEqual(Shown(a).fields, Shown(b).fields);
    hide Find, L.Side, Items, L.FieldChanges;
    d := L.Entry(k.key, L.Modified, L.FieldChanges(Shown(a).fields, Shown(b).fields));
  }

  /** A key is listed as added or removed, with its one value, exactly when only one version has it, and as
      modified exactly when both have it and value or reference differ. */
  lemma ConfigListedIff(from: seq<Entry>, to: seq<Entry>, d: ConfigDiff, k: KeyDiff)
    requires DistinctKeys(from) && DistinctKeys(to) && IsDiff(from, to, d)
    ensures k in d.keys <==> KeyListed(from, to, k)
  {
    hide Row, KeyListed, L.Delta, DistinctKeys;
    var ds :| Renders(from, to, ds, d);
    if k in d.keys {
      var i :| 0 <= i < |d.keys| && d.keys[i] == k;
      assert ds[i] in ds;
      RowSays(from, to, ds[i]);
    }
    if KeyListed(from, to, k) {
      var e := CalledFor(from, to, k);
      var i :| 0 <= i < |ds| && ds[i] == e;
      RowSays(from, to, e);
      ListedOnce(from, to, k, d.keys[i]);
    }
  }

  /** No plain value reads like the mask. */
  ghost predicate MaskMeansSecret(body: seq<Entry>) {
    forall e :: e in body && e.value == MASK ==> e.isSecret
  }

  /** For recorded bodies in which no plain value reads like the mask, identical means equal. */
  lemma IdenticalIffEqual(from: seq<Entry>, to: seq<Entry>, d: ConfigDiff)
    requires IsDiff(from, to, d) && WellFormed(from) && WellFormed(to)
    requires MaskMeansSecret(from) && MaskMeansSecret(to)
    ensures d.identical <==> from == to
  {
    ConfigIdenticalIff(from, to, d);
    if ShownAlike(from, to) {
      AlikeIsWithin(from, to);
      AlikeIsWithin(to, from);
      KeyLessIsStrictOrder();
      AscendingUnique(from, to, KeyLess);
    }
  }

  lemma AlikeIsWithin(from: seq<Entry>, to: seq<Entry>)
    requires WellFormed(from) && WellFormed(to) && MaskMeansSecret(from) && MaskMeansSecret(to)
    requires ShownAlike(from, to) || ShownAlike(to, from)
    ensures forall e :: e in from ==> e in to
  {
    AscendingKeysDistinct(from);
    forall e | e in from
      ensures e in to
    {
      FindMember(from, e);
      assert EntryShownAlike(Find(from, e.key), Find(to, e.key)) || EntryShownAlike(Find(to, e.key), Find(from, e.key));
    }
  }

  /** The condition is needed for every body: where it fails, turning the flag of the plain value that
      reads like the mask on gives a different recorded body that is reported identical. */
  lemma FlagGoesUnreported(from: seq<Entry>, i: nat, d: ConfigDiff)
    requires WellFormed(from) && i < |from| && from[i].value == MASK && !from[i].isSecret
    requires IsDiff(from, from[i := from[i].(isSecret := true)], d)
    ensures var to := from[i := from[i].(isSecret := true)];
      WellFormed(to) && to != from && d.identical
  {
    var to := from[i := from[i].(isSecret := true)];
    FlaggedIsRecorded(from, i);
    AscendingKeysDistinct(from);
    AscendingKeysDistinct(to);
    forall key
      ensures EntryShownAlike(Find(from, key), Find(to, key))
    {
      FlaggedFind(from, i, key);
    }
    hide Find;
    ConfigIdenticalIff(from, to, d);
  }

  lemma FlaggedIsRecorded(from: seq<Entry>, i: nat)
    requires WellFormed(from) && i < |from| && from[i].value == MASK
    ensures WellFormed(from[i := from[i].(isSecret := true)])
  {
    hide StrLess;
    var to := from[i := from[i].(isSecret := true)];
    forall e | e in to && e.isSecret
      ensures e.value == MASK
    {
      var j :| 0 <= j < |to| && to[j] == e;
      assert j != i ==> from[j] == e && e in from;
    }
    forall j, k | 0 <= j < k < |to|
      ensures KeyLess(to[j], to[k])
    {
      assert KeyLess(from[j], from[k]);
    }
  }

  lemma FlaggedFind(from: seq<Entry>, i: nat, key: string)
    requires DistinctKeys(from) && i < |from|
    requires DistinctKeys(from[i := from[i].(isSecret := true)])
    ensures EntryShownAlike(Find(from, key), Find(from[i := from[i].(isSecret := true)], key))
  {
    var to := from[i := from[i].(isSecret := true)];
    if j :| 0 <= j < |from| && from[j].key == key {
      assert from[j] in from && to[j] in to;
      FindMember(from, from[j]);
      FindMember(to, to[j]);
    } else {
      assert forall k :: 0 <= k < |to| ==> to[k].key == from[k].key;
      assert forall e :: e in from || e in to ==> e.key != key;
    }
  }

  /** The smallest such case. */
  lemma SecretFlagGoesUnreported(key: string, ref: string, d: ConfigDiff)
    requires IsDiff([Entry(key, MASK, false, ref)], [Entry(key, MASK, true, ref)], d)
    ensures d.identical
  {
    ConfigIdenticalIff([Entry(key, MASK, false, ref)], [Entry(key, MASK, true, ref)], d);
  }

  /** After a rollback the version rolled back to and the live configuration compare as identical. */
  lemma RolledBackComparesIdentical(s: State, scope: Scope, version: int, comment: string, f: Faults, d: ConfigDiff)
    requires RolledBack(s, scope, version, comment, f).ok
    requires WellFormed(GetByVersion(s.snapshots, scope, version).value.body)
    requires IsDiff(GetByVersion(s.snapshots, scope, version).value.body,
                    Body(RolledBack(s, scope, version, comment, f).state.rows, scope), d)
    ensures d.identical && d.keys == []
  {
    var body := GetByVersion(s.snapshots, scope, version).value.body;
    RestoreReproducesBody(s.rows, scope, body);
    ConfigIdenticalIff(body, body, d);
  }

  // ---- computing it ----

  /** The changes between two entries of a key: the value first, then the secret's reference. */
  function EntryFields(from: Entry, to: Entry): seq<(string, string)> {
    (if from.value != to.value then [(from.value, to.value)] else [])
    + (if from.secretRef != to.secretRef then [(from.secretRef, to.secretRef)] else [])
  }

  lemma EntryFieldsAreChanges(from: Entry, to: Entry)
    ensures var fs, cs := EntryFields(from, to), L.FieldChanges(Shown(from).fields, Shown(to).fields);
      |fs| == |cs| && (fs != [] ==> cs[0].from == fs[0].0 && cs[0].to == fs[0].1)
  {
    var a, b := Shown(from).fields, Shown(to).fields;
    assert a[..1] == [a[0]] && b[..1] == [b[0]];
    assert L.FieldChanges([], []) == [] && [a[0]][..0] == [] && [b[0]][..0] == [];
  }

  ghost predicate Indexes(index: map<string, Entry>, entries: seq<Entry>) {
    forall key :: Find(entries, key) == if key in index then Some(index[key]) else None
  }

  lemma FindAppend(entries: seq<Entry>, e: Entry, key: string)
    requires DistinctKeys(entries + [e])
    ensures Find(entries + [e], key) == if key == e.key then Some(e) else Find(entries, key)
  {
    var all := entries + [e];
    if key == e.key {
      assert all[|entries|] == e;
      FindMember(all, e);
    } else if Find(entries, key).Some? {
      var f := Find(entries, key).value;
      assert f in all;
      FindMember(all, f);
    } else {
      assert forall x :: x in all ==> x in entries || x == e;
    }
  }

  method IndexEntries(entries: seq<Entry>) returns (index: map<string, Entry>)
    requires DistinctKeys(entries)
    ensures Indexes(index, entries)
  {
    index := map[];
    for i := 0 to |entries|
      invariant Indexes(index, entries[..i])
    {
      assert entries[..i + 1] == entries[..i] + [entries[i]];
      forall key
        ensures Find(entries[..i + 1], key) == if key == entries[i].key then Some(entries[i]) else Find(entries[..i], key)
      {
        FindAppend(entries[..i], entries[i], key);
      }
      index := index[entries[i].key := entries[i]];
    }
    assert entries[..|entries|] == entries;
  }

  lemma RowsAppend(from: seq<Entry>, to: seq<Entry>, ds: seq<L.Entry<string>>, d: L.Entry<string>)
    ensures Rows(from, to, ds + [d]) == Rows(from, to, ds) + [Row(from, to, d)]
  {
    hide Row;
  }

  /** What an entry of the newer side calls for, and how it is rendered. */
  lemma EntryToIs(from: seq<Entry>, to: seq<Entry>, fromIndex: map<string, Entry>, e: Entry)
    requires DistinctKeys(to) && Indexes(fromIndex, from) && e in to
    ensures e.key !in fromIndex ==>
      var d := L.Entry(e.key, L.Added, []);
      L.EntryTo(Items(from), Shown(e)) == [d] && Row(from, to, d) == KeyDiff(e.key, L.Added, "", e.value)
    ensures e.key in fromIndex ==>
      var fs, cs := EntryFields(fromIndex[e.key], e), L.FieldChanges(Shown(fromIndex[e.key]).fields, Shown(e).fields);
      var d := L.Entry(e.key, L.Modified, cs);
      L.EntryTo(Items(from), Shown(e)) == (if fs == [] then [] else [d])
      && (fs != [] ==> Row(from, to, d) == KeyDiff(e.key, L.Modified, fs[0].0, fs[0].1))
  {
    SideIsFind(from, e.key);
    FindMember(to, e);
    if e.key in fromIndex {
      EntryFieldsAreChanges(fromIndex[e.key], e);
    }
    hide Find, L.Side, L.FieldChanges, Items, EntryFields;
  }

  /** The first pass: added and modified keys, in the newer side's order. */
  method PassTo(from: seq<Entry>, to: seq<Entry>, fromIndex: map<string, Entry>)
    returns (keys: seq<KeyDiff>, added: nat, modified: nat, ghost es: seq<L.Entry<string>>)
    requires DistinctKeys(to) && Indexes(fromIndex, from)
    ensures es == L.EntriesTo(Items(from), Items(to)) && keys == Rows(from, to, es)
    ensures L.Counted(es, added, 0, modified)
  {
    hide L.EntriesTo, L.EntryTo, L.Counted, L.FieldChanges, Indexes, DistinctKeys, Row, Rows, EntryFields, Items, Find;
    ghost var fs, ts := Items(from), Items(to);
    L.PassesStart(fs, ts);
    keys, added, modified, es := [], 0, 0, [];
    for i := 0 to |to|
      invariant es == L.EntriesTo(fs, ts[..i]) && keys == Rows(from, to, es)
      invariant L.Counted(es, added, 0, modified)
    {
      var e := to[i];
      L.PassToNext(fs, ts, i);
      EntryToIs(from, to, fromIndex, e);
      if e.key !in fromIndex {
        ghost var d := L.Entry(e.key, L.Added, []);
        L.CountsAppend(es, d, added, 0, modified);
        RowsAppend(from, to, es, d);
        keys, added, es := keys + [KeyDiff(e.key, L.Added, "", e.value)], added + 1, es + [d];
      } else {
        var fields := EntryFields(fromIndex[e.key], e);
        if |fields| > 0 {
          ghost var d := L.Entry(e.key, L.Modified, L.FieldChanges(Shown(fromIndex[e.key]).fields, Shown(e).fields));
          L.CountsAppend(es, d, added, 0, modified);
          RowsAppend(from, to, es, d);
          keys, modified, es := keys + [KeyDiff(e.key, L.Modified, fields[0].0, fields[0].1)], modified + 1, es + [d];
        }
      }
    }
    assert ts[..|to|] == ts;
  }

  lemma EntryFromIs(from: seq<Entry>, to: seq<Entry>, toIndex: map<string, Entry>, e: Entry)
    requires DistinctKeys(from) && Indexes(toIndex, to) && e in from
    ensures var d := L.Entry(e.key, L.Removed, []);
      && L.EntryFrom(Items(to), Shown(e)) == (if e.key in toIndex then [] else [d])
      && Row(from, to, d) == KeyDiff(e.key, L.Removed, e.value, "")
  {
    SideIsFind(to, e.key);
    FindMember(from, e);
    hide Find, L.Side, Items;
  }

  /** The second pass: keys the newer side no longer has. */
  method PassFrom(from: seq<Entry>, to: seq<Entry>, toIndex: map<string, Entry>)
    returns (keys: seq<KeyDiff>, removed: nat, ghost es: seq<L.Entry<string>>)
    requires DistinctKeys(from) && Indexes(toIndex, to)
    ensures es == L.EntriesFrom(Items(from), Items(to)) && keys == Rows(from, to, es)
    ensures L.Counted(es, 0, removed, 0)
  {
    hide L.EntriesFrom, L.EntryFrom, L.Counted, Indexes, DistinctKeys, Row, Rows, Shown, Items, Find;
    ghost var fs, ts := Items(from), Items(to);
    L.PassesStart(fs, ts);
    keys, removed, es := [], 0, [];
    for i := 0 to |from|
      invariant es == L.EntriesFrom(fs[..i], ts) && keys == Rows(from, to, es)
      invariant L.Counted(es, 0, removed, 0)
    {
      var e := from[i];
      L.PassFromNext(fs, ts, i);
      EntryFromIs(from, to, toIndex, e);
      if e.key !in toIndex {
        ghost var d := L.Entry(e.key, L.Removed, []);
        L.CountsAppend(es, d, 0, removed, 0);
        RowsAppend(from, to, es, d);
        keys, removed, es := keys + [KeyDiff(e.key, L.Removed, e.value, "")], removed + 1, es + [d];
      }
    }
    assert fs[..|from|] == fs;
  }

  predicate DiffLess(a: KeyDiff, b: KeyDiff) {
    StrLess(a.key, b.key)
  }

  lemma RowsOfFirst(from: seq<Entry>, to: seq<Entry>, d: L.Entry<string>, ds: seq<L.Entry<string>>)
    ensures Rows(from, to, [d] + ds) == [Row(from, to, d)] + Rows(from, to, ds)
    ensures Rows(from, to, [d] + ds)[1..] == Rows(from, to, ds)
  {
    hide Row, Rows;
    var all, rest := Rows(from, to, [d] + ds), Rows(from, to, ds);
    forall i | 0 < i < |all|
      ensures all[i] == rest[i - 1]
    {
      assert ([d] + ds)[i] == ds[i - 1];
    }
    assert all[1..] == rest && all == [all[0]] + all[1..];
  }

  lemma SameOrder(from: seq<Entry>, to: seq<Entry>, d: L.Entry<string>, e: L.Entry<string>)
    ensures DiffLess(Row(from, to, d), Row(from, to, e)) == L.ByKey<string>(StrLess)(d, e)
  {
    RowKeepsKey(from, to, d);
    RowKeepsKey(from, to, e);
    hide Row, StrLess;
  }

  lemma {:induction false} InsertRows(from: seq<Entry>, to: seq<Entry>, d: L.Entry<string>, ds: seq<L.Entry<string>>)
    ensures Insert(Row(from, to, d), Rows(from, to, ds), DiffLess) == Rows(from, to, Insert(d, ds, L.ByKey(StrLess)))
    decreases |ds|
  {
    hide Row, Rows, StrLess, DiffLess, L.ByKey;
    if ds == [] {
      assert [d] + ds == [d];
      RowsOfFirst(from, to, d, ds);
    } else {
      var first, rest := ds[0], ds[1..];
      assert ds == [first] + rest;
      RowsOfFirst(from, to, first, rest);
      SameOrder(from, to, d, first);
      if L.ByKey<string>(StrLess)(d, first) {
        RowsOfFirst(from, to, d, ds);
      } else {
        InsertRows(from, to, d, rest);
        RowsOfFirst(from, to, first, Insert(d, rest, L.ByKey(StrLess)));
      }
    }
  }

  lemma RowKeepsKey(from: seq<Entry>, to: seq<Entry>, d: L.Entry<string>)
    ensures Row(from, to, d).key == d.key
  {
  }

  /** Sorting the rendered entries is rendering the sorted ones. */
  lemma {:induction false} SortRows(from: seq<Entry>, to: seq<Entry>, ds: seq<L.Entry<string>>)
    ensures SortStable(Rows(from, to, ds), DiffLess) == Rows(from, to, SortStable(ds, L.ByKey(StrLess)))
    decreases |ds|
  {
    hide Row, Rows, Insert, SortStable, DiffLess, L.ByKey, StrLess;
    if ds != [] {
      var front, last := ds[..|ds| - 1], ds[|ds| - 1];
      assert ds == front + [last];
      SortRows(from, to, front);
      RowsAppend(from, to, front, last);
      SortAppend(Rows(from, to, front), Row(from, to, last), DiffLess);
      SortAppend(front, last, L.ByKey(StrLess));
      InsertRows(from, to, last, SortStable(front, L.ByKey(StrLess)));
    } else {
      SortNothing<KeyDiff>(DiffLess);
      SortNothing<L.Entry<string>>(L.ByKey(StrLess));
    }
  }

  lemma SortNothing<T>(less: (T, T) -> bool)
    ensures SortStable([], less) == []
  {
  }

  lemma SortAppend<T>(xs: seq<T>, x: T, less: (T, T) -> bool)
    ensures SortStable(xs + [x], less) == Insert(x, SortStable(xs, less), less)
  {
    assert (xs + [x])[..|xs|] == xs;
  }

  lemma SortedIsListing(from: seq<Entry>, to: seq<Entry>, es: seq<L.Entry<string>>)
    requires DistinctKeys(from) && DistinctKeys(to)
    requires es == L.EntriesTo(Items(from), Items(to)) + L.EntriesFrom(Items(from), Items(to))
    ensures L.IsListing(Items(from), Items(to), StrLess, SortStable(es, L.ByKey(StrLess)))
    ensures SummaryOf(SortStable(es, L.ByKey(StrLess))) == SummaryOf(es)
  {
    hide L.EntriesTo, L.EntriesFrom, L.IsListing, SortStable, StrLess, L.CountOf;
    KeyOrder();
    L.ByKeyIsStrictOrder(StrLess);
    ItemsDistinct(from);
    ItemsDistinct(to);
    L.SortedPassesAreListing(Items(from), Items(to), StrLess, L.ByKey(StrLess), es);
  }

  /** Two passes, then a sort by key. */
  method DiffConfigSnapshots(from: seq<Entry>, to: seq<Entry>, fromVersion: int, toVersion: int) returns (d: ConfigDiff)
    requires DistinctKeys(from) && DistinctKeys(to)
    ensures IsDiff(from, to, d) && d.fromVersion == fromVersion && d.toVersion == toVersion
  {
    hide Row, L.EntriesTo, L.EntriesFrom, L.IsListing, L.CountOf, SortStable, Indexes, DistinctKeys, StrLess;
    var fromIndex := IndexEntries(from);
    var toIndex := IndexEntries(to);
    ghost var est, esf;
    var keysTo, added, modified, keysFrom, removed;
    keysTo, added, modified, est := PassTo(from, to, fromIndex);
    keysFrom, removed, esf := PassFrom(from, to, toIndex);
    var keys := SortStable(keysTo + keysFrom, DiffLess);
    d := ConfigDiff(fromVersion, toVersion, keys, Summary(added, removed, modified), |keys| == 0);
    ghost var es := est + esf;
    assert keysTo + keysFrom == Rows(from, to, es);
    SortRows(from, to, es);
    SortedIsListing(from, to, es);
    L.CountConcat(est, esf);
    assert Renders(from, to, SortStable(es, L.ByKey(StrLess)), d);
  }
}
