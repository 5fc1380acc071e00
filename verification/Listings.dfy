/** Comparing two keyed lists of records: which entries a diff must contain, and the laws every
    such diff obeys. The snapshot diff uses it twice, for stages and for tasks. */
module Listings {
  import opened Text
  import opened Ordering

  datatype Change = Added | Modified | Removed

  /** A compared field and how its value is shown. */
  datatype Field = Field(name: string, shown: string)

  datatype FieldChange = FieldChange(field: string, from: string, to: string)

  datatype Item<K> = Item(key: K, fields: seq<Field>)

  datatype Entry<K> = Entry(key: K, change: Change, fields: seq<FieldChange>)

  // ---- field changes ----

  ghost predicate SameNames(a: seq<Field>, b: seq<Field>) {
    |a| == |b| && forall i :: 0 <= i < |a| ==> a[i].name == b[i].name
  }

  /** The fields whose shown values differ, in field order. */
  function FieldChanges(a: seq<Field>, b: seq<Field>): seq<FieldChange>
    requires |a| == |b|
  {
    if a == [] then []
    else
      FieldChanges(a[..|a| - 1], b[..|b| - 1])
      + if a[|a| - 1].shown != b[|b| - 1].shown
        then [FieldChange(a[|a| - 1].name, a[|a| - 1].shown, b[|b| - 1].shown)]
        else []
  }

  function FlipFields(fs: seq<FieldChange>): seq<FieldChange> {
    if fs == [] then []
    else FlipFields(fs[..|fs| - 1]) + [FieldChange(fs[|fs| - 1].field, fs[|fs| - 1].to, fs[|fs| - 1].from)]
  }

  lemma {:induction false} NoFieldChangesIffEqual(a: seq<Field>, b: seq<Field>)
    requires SameNames(a, b)
    ensures FieldChanges(a, b) == [] <==> a == b
    decreases |a|
  {
    if a != [] {
      NoFieldChangesIffEqual(a[..|a| - 1], b[..|b| - 1]);
      assert a == a[..|a| - 1] + [a[|a| - 1]] && b == b[..|b| - 1] + [b[|b| - 1]];
    }
  }

  lemma {:induction false} FieldChangesFlip(a: seq<Field>, b: seq<Field>)
    requires SameNames(a, b)
    ensures FlipFields(FieldChanges(a, b)) == FieldChanges(b, a)
    decreases |a|
  {
    if a != [] {
      FieldChangesFlip(a[..|a| - 1], b[..|b| - 1]);
      var front, all := FieldChanges(a[..|a| - 1], b[..|b| - 1]), FieldChanges(a, b);
      if |all| > |front| {
        assert all[..|all| - 1] == front;
      } else {
        assert all == front;
      }
    }
  }

  lemma FlipFieldsAppend(front: seq<FieldChange>, last: FieldChange)
    ensures FlipFields(front + [last]) == FlipFields(front) + [FieldChange(last.field, last.to, last.from)]
  {
    assert (front + [last])[..|front|] == front;
  }

  lemma {:induction false} FlipFieldsTwice(fs: seq<FieldChange>)
    ensures FlipFields(FlipFields(fs)) == fs
    decreases |fs|
  {
    if fs != [] {
      hide FlipFields;
      var front, last := fs[..|fs| - 1], fs[|fs| - 1];
      assert fs == front + [last];
      FlipFieldsTwice(front);
      FlipFieldsAppend(front, last);
      FlipFieldsAppend(FlipFields(front), FieldChange(last.field, last.to, last.from));
    }
  }

  // ---- which record a key denotes ----

  ghost predicate DistinctKeys<K>(items: seq<Item<K>>) {
    forall i, j :: 0 <= i < j < |items| ==> items[i].key != items[j].key
  }

  lemma ConcatDistinct<K>(a: seq<Item<K>>, b: seq<Item<K>>)
    requires DistinctKeys(a) && DistinctKeys(b)
    requires forall x, y :: x in a && y in b ==> x.key != y.key
    ensures DistinctKeys(a + b)
  {
  }

  lemma NoneDistinct<K>(items: seq<Item<K>>)
    requires items == []
    ensures DistinctKeys(items)
  {
  }

  /** All records on both sides have the same fields, in the same order. */
  ghost predicate Uniform<K(!new)>(from: seq<Item<K>>, to: seq<Item<K>>) {
    forall x, y :: x in from && y in to ==> SameNames(x.fields, y.fields) && SameNames(y.fields, x.fields)
  }

  function Side<K(==)>(items: seq<Item<K>>, key: K): (r: Option<seq<Field>>)
    ensures r.Some? ==> Item(key, r.value) in items
    ensures r == None ==> forall x :: x in items ==> x.key != key
  {
    if items == [] then None
    else if items[0].key == key then Some(items[0].fields)
    else Side(items[1..], key)
  }

  lemma SideFound<K>(items: seq<Item<K>>, x: Item<K>)
    requires DistinctKeys(items) && x in items
    ensures Side(items, x.key) == Some(x.fields)
  {
    var fields := Side(items, x.key).value;
    var i :| 0 <= i < |items| && items[i] == x;
    var j :| 0 <= j < |items| && items[j] == Item(x.key, fields);
    assert i == j;
  }

  // ---- what a diff has to contain ----

  /** What a key calls for when the two sides show `a` and `b` for it. */
  function Verdict(a: Option<seq<Field>>, b: Option<seq<Field>>): Option<(Change, seq<FieldChange>)> {
    match (a, b)
    case (None, None) => None
    case (None, Some(_)) => Some((Added, []))
    case (Some(_), None) => Some((Removed, []))
    case (Some(x), Some(y)) =>
      if |x| == |y| && FieldChanges(x, y) != [] then Some((Modified, FieldChanges(x, y))) else None
  }

  ghost predicate Delta<K>(from: seq<Item<K>>, to: seq<Item<K>>, d: Entry<K>) {
    Verdict(Side(from, d.key), Side(to, d.key)) == Some((d.change, d.fields))
  }

  /** Entries are compared by key. */
  function ByKey<K>(less: (K, K) -> bool): (Entry<K>, Entry<K>) -> bool {
    (a: Entry<K>, b: Entry<K>) => less(a.key, b.key)
  }

  /** `ds` lists, in key order and once each, exactly the entries the two sides call for. */
  ghost predicate IsListing<K(!new)>(from: seq<Item<K>>, to: seq<Item<K>>, less: (K, K) -> bool, ds: seq<Entry<K>>) {
    && Ascending(ds, ByKey(less))
    && forall x :: x in ds <==> Delta(from, to, x)
  }

  lemma ByKeyIsStrictOrder<K(!new)>(less: (K, K) -> bool)
    requires StrictOrder(less)
    ensures StrictOrder(ByKey(less))
  {
    var order := ByKey(less);
    forall a, b | order(a, b)
      ensures !order(b, a)
    {
      assert less(a.key, b.key);
    }
    forall a, b, c | order(a, b) && order(b, c)
      ensures order(a, c)
    {
      assert less(a.key, b.key) && less(b.key, c.key);
    }
  }

  // ---- duality ----

  function FlipChange(c: Change): Change {
    match c
    case Added => Removed
    case Removed => Added
    case Modified => Modified
  }

  function FlipEntry<K>(d: Entry<K>): Entry<K> {
    Entry(d.key, FlipChange(d.change), FlipFields(d.fields))
  }

  function Flip<K>(ds: seq<Entry<K>>): (r: seq<Entry<K>>)
    ensures |r| == |ds| && forall i :: 0 <= i < |ds| ==> r[i] == FlipEntry(ds[i])
  {
    seq(|ds|, i requires 0 <= i < |ds| => FlipEntry(ds[i]))
  }

  ghost predicate SameFields(a: Option<seq<Field>>, b: Option<seq<Field>>) {
    a.Some? && b.Some? ==> SameNames(a.value, b.value)
  }

  lemma VerdictFlips(a: Option<seq<Field>>, b: Option<seq<Field>>)
    requires SameFields(a, b)
    ensures Verdict(b, a) ==
      match Verdict(a, b)
      case None => None
      case Some((c, fs)) => Some((FlipChange(c), FlipFields(fs)))
  {
    if a.Some? && b.Some? {
      FieldChangesFlip(a.value, b.value);
      FieldChangesFlip(b.value, a.value);
    }
  }

  lemma DeltaFlips<K>(from: seq<Item<K>>, to: seq<Item<K>>, d: Entry<K>)
    requires SameFields(Side(from, d.key), Side(to, d.key))
    ensures Delta(from, to, d) <==> Delta(to, from, FlipEntry(d))
  {
    VerdictFlips(Side(from, d.key), Side(to, d.key));
    VerdictFlips(Side(to, d.key), Side(from, d.key));
    FlipFieldsTwice(d.fields);
  }

  lemma FlipEntryTwice<K>(d: Entry<K>)
    ensures FlipEntry(FlipEntry(d)) == d
  {
    FlipFieldsTwice(d.fields);
  }

  lemma FlipMember<K(!new)>(ds: seq<Entry<K>>, x: Entry<K>)
    ensures x in Flip(ds) <==> FlipEntry(x) in ds
  {
    hide FlipEntry;
    var fs := Flip(ds);
    FlipEntryTwice(x);
    if x in fs {
      var i :| 0 <= i < |ds| && fs[i] == x;
      FlipEntryTwice(ds[i]);
    }
    if FlipEntry(x) in ds {
      var i :| 0 <= i < |ds| && ds[i] == FlipEntry(x);
      assert fs[i] == x;
    }
  }

  lemma FlipKeepsOrder<K(!new)>(ds: seq<Entry<K>>, less: (K, K) -> bool)
    requires Ascending(ds, ByKey(less))
    ensures Ascending(Flip(ds), ByKey(less))
  {
    forall i, j | 0 <= i < j < |ds|
      ensures ByKey(less)(Flip(ds)[i], Flip(ds)[j])
    {
      assert ByKey(less)(ds[i], ds[j]);
    }
  }

  /** Comparing the other way round lists the same keys in the same order, with added and removed
      exchanged and every field change reversed. */
  lemma ListingIsDual<K(!new)>(from: seq<Item<K>>, to: seq<Item<K>>, less: (K, K) -> bool,
                               ds: seq<Entry<K>>, es: seq<Entry<K>>)
    requires StrictOrder(less) && Uniform(from, to)
    requires IsListing(from, to, less, ds) && IsListing(to, from, less, es)
    ensures es == Flip(ds)
  {
    hide Delta;
    ByKeyIsStrictOrder(less);
    FlipKeepsOrder(ds, less);
    forall x
      ensures x in es <==> x in Flip(ds)
    {
      FlipMember(ds, x);
      DeltaFlips(to, from, x);
    }
    AscendingUnique(es, Flip(ds), ByKey(less));
  }

  // ---- identity ----

  lemma VerdictNoneIffEqual(a: Option<seq<Field>>, b: Option<seq<Field>>)
    requires SameFields(a, b)
    ensures Verdict(a, b) == None <==> a == b
  {
    if a.Some? && b.Some? {
      NoFieldChangesIffEqual(a.value, b.value);
    }
  }

  ghost predicate Agree<K(!new)>(from: seq<Item<K>>, to: seq<Item<K>>) {
    forall key :: Side(from, key) == Side(to, key)
  }

  /** The listing is empty exactly when the sides show the same for every key. */
  lemma EmptyIffAgree<K(!new)>(from: seq<Item<K>>, to: seq<Item<K>>, less: (K, K) -> bool, ds: seq<Entry<K>>)
    requires Uniform(from, to) && IsListing(from, to, less, ds)
    ensures ds == [] <==> Agree(from, to)
  {
    forall key
      ensures Side(from, key) == Side(to, key) <==> Verdict(Side(from, key), Side(to, key)) == None
    {
      VerdictNoneIffEqual(Side(from, key), Side(to, key));
    }
    if ds == [] {
      forall key
        ensures Side(from, key) == Side(to, key)
      {
        var v := Verdict(Side(from, key), Side(to, key));
        assert v.Some? ==> Delta(from, to, Entry(key, v.value.0, v.value.1));
      }
    } else {
      assert Delta(from, to, ds[0]);
    }
  }

  // ---- conservation ----

  function CountOf<K>(ds: seq<Entry<K>>, c: Change): nat {
    if ds == [] then 0 else CountOf(ds[..|ds| - 1], c) + if ds[|ds| - 1].change == c then 1 else 0
  }

  lemma {:induction false} FlipCount<K>(ds: seq<Entry<K>>, c: Change)
    ensures CountOf(Flip(ds), FlipChange(c)) == CountOf(ds, c)
    decreases |ds|
  {
    if ds != [] {
      FlipCount(ds[..|ds| - 1], c);
      assert Flip(ds)[..|ds| - 1] == Flip(ds[..|ds| - 1]);
    }
  }

  ghost predicate DistinctEntries<K>(ds: seq<Entry<K>>) {
    forall i, j :: 0 <= i < j < |ds| ==> ds[i].key != ds[j].key
  }

  lemma AscendingEntriesDistinct<K(!new)>(ds: seq<Entry<K>>, less: (K, K) -> bool)
    requires StrictOrder(less) && Ascending(ds, ByKey(less))
    ensures DistinctEntries(ds)
  {
    forall i, j | 0 <= i < j < |ds|
      ensures ds[i].key != ds[j].key
    {
      assert ByKey(less)(ds[i], ds[j]);
    }
  }

  function KeysOf<K(==)>(items: seq<Item<K>>): set<K> {
    if items == [] then {} else KeysOf(items[..|items| - 1]) + {items[|items| - 1].key}
  }

  function KeysWith<K(==)>(ds: seq<Entry<K>>, c: Change): set<K> {
    if ds == [] then {}
    else KeysWith(ds[..|ds| - 1], c) + if ds[|ds| - 1].change == c then {ds[|ds| - 1].key} else {}
  }

  lemma {:induction false} KeysOfMember<K(!new)>(items: seq<Item<K>>, key: K)
    ensures key in KeysOf(items) <==> exists x :: x in items && x.key == key
    decreases |items|
  {
    if items != [] {
      KeysOfMember(items[..|items| - 1], key);
      assert items == items[..|items| - 1] + [items[|items| - 1]];
    }
  }

  lemma {:induction false} KeysOfCount<K(!new)>(items: seq<Item<K>>)
    requires DistinctKeys(items)
    ensures |KeysOf(items)| == |items|
    decreases |items|
  {
    if items != [] {
      var front, last := items[..|items| - 1], items[|items| - 1];
      KeysOfCount(front);
      KeysOfMember(front, last.key);
      forall x | x in front
        ensures x.key != last.key
      {
        var i :| 0 <= i < |front| && front[i] == x;
        assert items[i] == x;
      }
    }
  }

  lemma {:induction false} KeysWithMember<K(!new)>(ds: seq<Entry<K>>, c: Change, key: K)
    ensures key in KeysWith(ds, c) <==> exists x :: x in ds && x.change == c && x.key == key
    decreases |ds|
  {
    if ds != [] {
      KeysWithMember(ds[..|ds| - 1], c, key);
      assert ds == ds[..|ds| - 1] + [ds[|ds| - 1]];
    }
  }

  lemma {:induction false} KeysWithCount<K(!new)>(ds: seq<Entry<K>>, c: Change)
    requires DistinctEntries(ds)
    ensures |KeysWith(ds, c)| == CountOf(ds, c)
    decreases |ds|
  {
    if ds != [] {
      var front, last := ds[..|ds| - 1], ds[|ds| - 1];
      KeysWithCount(front, c);
      KeysWithMember(front, c, last.key);
      forall x | x in front
        ensures x.key != last.key
      {
        var i :| 0 <= i < |front| && front[i] == x;
        assert ds[i] == x;
      }
    }
  }

  /** Listings of the same entries count the same. */
  lemma SameMembersSameCount<K(!new)>(ds: seq<Entry<K>>, es: seq<Entry<K>>, c: Change)
    requires DistinctEntries(ds) && DistinctEntries(es)
    requires forall x :: x in ds <==> x in es
    ensures CountOf(ds, c) == CountOf(es, c)
  {
    KeysWithCount(ds, c);
    KeysWithCount(es, c);
    assert KeysWith(ds, c) == KeysWith(es, c) by {
      forall key
        ensures key in KeysWith(ds, c) <==> key in KeysWith(es, c)
      {
        KeysWithMember(ds, c, key);
        KeysWithMember(es, c, key);
      }
    }
  }

  lemma SideKey<K(!new)>(items: seq<Item<K>>, key: K)
    ensures Side(items, key).Some? <==> key in KeysOf(items)
  {
    KeysOfMember(items, key);
  }

  lemma AddedKeysAre<K(!new)>(from: seq<Item<K>>, to: seq<Item<K>>, less: (K, K) -> bool, ds: seq<Entry<K>>)
    requires IsListing(from, to, less, ds)
    ensures KeysWith(ds, Added) == KeysOf(to) - KeysOf(from)
    ensures KeysWith(ds, Removed) == KeysOf(from) - KeysOf(to)
  {
    forall key
      ensures key in KeysWith(ds, Added) <==> key in KeysOf(to) - KeysOf(from)
      ensures key in KeysWith(ds, Removed) <==> key in KeysOf(from) - KeysOf(to)
    {
      KeysWithMember(ds, Added, key);
      KeysWithMember(ds, Removed, key);
      SideKey(from, key);
      SideKey(to, key);
      hide KeysWith, KeysOf, Side;
      if key in KeysOf(to) - KeysOf(from) {
        assert Delta(from, to, Entry(key, Added, []));
      }
      if key in KeysOf(from) - KeysOf(to) {
        assert Delta(from, to, Entry(key, Removed, []));
      }
    }
  }

  lemma DifferenceSizes<T>(a: set<T>, b: set<T>)
    ensures |b| == |a| + |b - a| - |a - b|
  {
    assert b == (b - a) + (a * b) && a == (a - b) + (a * b);
  }

  /** What the newer side has is what the older had, plus the added, minus the removed. */
  lemma ItemsConserved<K(!new)>(from: seq<Item<K>>, to: seq<Item<K>>, less: (K, K) -> bool, ds: seq<Entry<K>>)
    requires StrictOrder(less) && DistinctKeys(from) && DistinctKeys(to) && IsListing(from, to, less, ds)
    ensures |to| == |from| + CountOf(ds, Added) - CountOf(ds, Removed)
  {
    KeysOfCount(from);
    KeysOfCount(to);
    AscendingEntriesDistinct(ds, less);
    KeysWithCount(ds, Added);
    KeysWithCount(ds, Removed);
    AddedKeysAre(from, to, less, ds);
    DifferenceSizes(KeysOf(from), KeysOf(to));
  }

  // ---- building a listing ----

  /** The entry a record of the newer side calls for. */
  function EntryTo<K(==)>(from: seq<Item<K>>, x: Item<K>): seq<Entry<K>> {
    match Verdict(Side(from, x.key), Some(x.fields))
    case None => []
    case Some((c, fs)) => [Entry(x.key, c, fs)]
  }

  function EntriesTo<K(==)>(from: seq<Item<K>>, to: seq<Item<K>>): seq<Entry<K>>
    decreases |to|
  {
    if to == [] then [] else EntriesTo(from, to[..|to| - 1]) + EntryTo(from, to[|to| - 1])
  }

  /** The entry a record of the older side calls for: it is removed, or the newer side accounts for it. */
  function EntryFrom<K(==)>(to: seq<Item<K>>, x: Item<K>): seq<Entry<K>> {
    if Side(to, x.key) == None then [Entry(x.key, Removed, [])] else []
  }

  function EntriesFrom<K(==)>(from: seq<Item<K>>, to: seq<Item<K>>): seq<Entry<K>>
    decreases |from|
  {
    if from == [] then [] else EntriesFrom(from[..|from| - 1], to) + EntryFrom(to, from[|from| - 1])
  }

  lemma {:induction false} EntriesToMember<K(!new)>(from: seq<Item<K>>, to: seq<Item<K>>, d: Entry<K>)
    ensures d in EntriesTo(from, to) <==>
      exists x :: x in to && x.key == d.key && Verdict(Side(from, d.key), Some(x.fields)) == Some((d.change, d.fields))
    decreases |to|
  {
    if to != [] {
      hide Verdict;
      EntriesToMember(from, to[..|to| - 1], d);
      assert to == to[..|to| - 1] + [to[|to| - 1]];
    }
  }

  lemma {:induction false} EntriesFromMember<K(!new)>(from: seq<Item<K>>, to: seq<Item<K>>, d: Entry<K>)
    ensures d in EntriesFrom(from, to) <==>
      Side(to, d.key) == None && d == Entry(d.key, Removed, []) && exists x :: x in from && x.key == d.key
    decreases |from|
  {
    if from != [] {
      EntriesFromMember(from[..|from| - 1], to, d);
      assert from == from[..|from| - 1] + [from[|from| - 1]];
    }
  }

  lemma {:induction false} EntriesToDistinct<K(!new)>(from: seq<Item<K>>, to: seq<Item<K>>)
    requires DistinctKeys(to)
    ensures DistinctEntries(EntriesTo(from, to))
    decreases |to|
  {
    if to != [] {
      var front, last := to[..|to| - 1], to[|to| - 1];
      EntriesToDistinct(from, front);
      var es := EntriesTo(from, front);
      forall i | 0 <= i < |es|
        ensures es[i].key != last.key
      {
        EntriesToMember(from, front, es[i]);
        var x :| x in front && x.key == es[i].key;
        var j :| 0 <= j < |front| && front[j] == x;
        assert to[j] == x;
      }
    }
  }

  lemma {:induction false} EntriesFromDistinct<K(!new)>(from: seq<Item<K>>, to: seq<Item<K>>)
    requires DistinctKeys(from)
    ensures DistinctEntries(EntriesFrom(from, to))
    decreases |from|
  {
    if from != [] {
      var front, last := from[..|from| - 1], from[|from| - 1];
      EntriesFromDistinct(front, to);
      var es := EntriesFrom(front, to);
      forall i | 0 <= i < |es|
        ensures es[i].key != last.key
      {
        EntriesFromMember(front, to, es[i]);
        var x :| x in front && x.key == es[i].key;
        var j :| 0 <= j < |front| && front[j] == x;
        assert from[j] == x;
      }
    }
  }

  /** The two passes together produce every entry called for, no other, and none twice. */
  lemma PassesCover<K(!new)>(from: seq<Item<K>>, to: seq<Item<K>>)
    requires DistinctKeys(from) && DistinctKeys(to)
    ensures var es := EntriesTo(from, to) + EntriesFrom(from, to);
      DistinctEntries(es) && forall d :: d in es <==> Delta(from, to, d)
  {
    var a, b := EntriesTo(from, to), EntriesFrom(from, to);
    EntriesToDistinct(from, to);
    EntriesFromDistinct(from, to);
    forall i, j | 0 <= i < |a| && 0 <= j < |b|
      ensures a[i].key != b[j].key
    {
      EntriesToMember(from, to, a[i]);
      EntriesFromMember(from, to, b[j]);
    }
    forall d
      ensures d in a + b <==> Delta(from, to, d)
    {
      PassesCoverEntry(from, to, d);
    }
  }

  lemma PassesCoverEntry<K(!new)>(from: seq<Item<K>>, to: seq<Item<K>>, d: Entry<K>)
    requires DistinctKeys(from) && DistinctKeys(to)
    ensures d in EntriesTo(from, to) || d in EntriesFrom(from, to) <==> Delta(from, to, d)
  {
    EntriesToMember(from, to, d);
    EntriesFromMember(from, to, d);
    if x :| x in to && x.key == d.key {
      SideFound(to, x);
    }
    if x :| x in from && x.key == d.key {
      SideFound(from, x);
    }
  }

  /** Sorting the passes' entries by key gives the listing. */
  lemma SortedPassesAreListing<K(!new)>(from: seq<Item<K>>, to: seq<Item<K>>, less: (K, K) -> bool,
                                       order: (Entry<K>, Entry<K>) -> bool, es: seq<Entry<K>>)
    requires DistinctKeys(from) && DistinctKeys(to) && StrictOrder(less)
    requires forall x, y :: x != y ==> less(x, y) || less(y, x)
    requires Transitive(order)
    requires forall a: Entry<K>, b: Entry<K> :: a.key != b.key ==> (order(a, b) <==> less(a.key, b.key))
    requires es == EntriesTo(from, to) + EntriesFrom(from, to)
    ensures IsListing(from, to, less, SortStable(es, order))
    ensures forall c :: CountOf(SortStable(es, order), c) == CountOf(es, c)
  {
    hide Delta, EntriesTo, EntriesFrom;
    PassesCover(from, to);
    var ds := SortStable(es, order);
    SortAscending(es, order);
    SortMembers(es, order);
    SortKeepsDistinct(es, order);
    forall i, j | 0 <= i < j < |ds|
      ensures ByKey(less)(ds[i], ds[j])
    {
      assert ds[i].key != ds[j].key;
    }
    forall c
      ensures CountOf(ds, c) == CountOf(es, c)
    {
      SameMembersSameCount(ds, es, c);
    }
  }

  lemma SortKeepsDistinct<K(!new)>(es: seq<Entry<K>>, order: (Entry<K>, Entry<K>) -> bool)
    requires DistinctEntries(es)
    ensures DistinctEntries(SortStable(es, order))
  {
    var ds := SortStable(es, order);
    SortMembers(es, order);
    forall i, j | 0 <= i < j < |ds|
      ensures ds[i].key != ds[j].key
    {
      DistinctPositions(ds, es, i, j);
    }
  }

  lemma DistinctPositions<K(!new)>(ds: seq<Entry<K>>, es: seq<Entry<K>>, i: nat, j: nat)
    requires DistinctEntries(es) && multiset(ds) == multiset(es) && i < j < |ds|
    ensures ds[i].key != ds[j].key
  {
    assert ds[i] in multiset(ds) && ds[j] in multiset(ds);
    assert ds[i] in es && ds[j] in es;
    if ds[i] == ds[j] {
      TwicePresent(ds, i, j);
      OncePresent(es, ds[i]);
    } else {
      var p :| 0 <= p < |es| && es[p] == ds[i];
      var q :| 0 <= q < |es| && es[q] == ds[j];
      assert p != q;
    }
  }

  lemma TwicePresent<T>(xs: seq<T>, i: nat, j: nat)
    requires i < j < |xs| && xs[i] == xs[j]
    ensures multiset(xs)[xs[i]] >= 2
  {
    assert xs == xs[..j] + xs[j..];
    assert xs[..j][i] == xs[i] && xs[j..][0] == xs[i];
    assert multiset(xs) == multiset(xs[..j]) + multiset(xs[j..]);
  }

  lemma {:induction false} OncePresent<K>(es: seq<Entry<K>>, x: Entry<K>)
    requires DistinctEntries(es)
    ensures multiset(es)[x] <= 1
  {
    if es != [] {
      var front, last := es[..|es| - 1], es[|es| - 1];
      OncePresent(front, x);
      assert es == front + [last];
      if x == last {
        assert x !in front;
      }
    }
  }

  // ---- the passes step by step ----

  /** The three counters of a list of entries. */
  ghost predicate Counted<K>(ds: seq<Entry<K>>, added: nat, removed: nat, modified: nat) {
    CountOf(ds, Added) == added && CountOf(ds, Removed) == removed && CountOf(ds, Modified) == modified
  }

  lemma CountsAppend<K>(ds: seq<Entry<K>>, e: Entry<K>, added: nat, removed: nat, modified: nat)
    requires Counted(ds, added, removed, modified)
    ensures Counted(ds + [e], added + (if e.change == Added then 1 else 0),
                    removed + (if e.change == Removed then 1 else 0), modified + (if e.change == Modified then 1 else 0))
  {
    assert (ds + [e])[..|ds|] == ds;
  }

  /** The records passed over when `i` more than `done` are through. */
  function Through<K>(done: seq<Item<K>>, items: seq<Item<K>>, i: nat): seq<Item<K>>
    requires i <= |items|
  {
    done + items[..i]
  }

  lemma ThroughEnds<K>(done: seq<Item<K>>, items: seq<Item<K>>)
    ensures Through(done, items, 0) == done && Through(done, items, |items|) == done + items
  {
    assert items[..|items|] == items;
  }

  lemma PassNext<K(!new)>(from: seq<Item<K>>, done: seq<Item<K>>, items: seq<Item<K>>, i: nat)
    requires i < |items|
    ensures EntriesTo(from, Through(done, items, i + 1)) == EntriesTo(from, Through(done, items, i)) + EntryTo(from, items[i])
    ensures EntriesFrom(Through(done, items, i + 1), from)
      == EntriesFrom(Through(done, items, i), from) + EntryFrom(from, items[i])
  {
    assert done + items[..i + 1] == done + items[..i] + [items[i]];
    assert Through(done, items, i + 1)[..|done| + i] == Through(done, items, i);
  }

  lemma PassesStart<K(!new)>(from: seq<Item<K>>, to: seq<Item<K>>)
    ensures EntriesTo(from, to[..0]) == [] && EntriesFrom(from[..0], to) == []
    ensures Counted<K>([], 0, 0, 0)
  {
  }

  lemma PassToNext<K(!new)>(from: seq<Item<K>>, to: seq<Item<K>>, i: nat)
    requires i < |to|
    ensures EntriesTo(from, to[..i + 1]) == EntriesTo(from, to[..i]) + EntryTo(from, to[i])
  {
    assert to[..i + 1][..i] == to[..i];
  }

  lemma PassFromNext<K(!new)>(from: seq<Item<K>>, to: seq<Item<K>>, i: nat)
    requires i < |from|
    ensures EntriesFrom(from[..i + 1], to) == EntriesFrom(from[..i], to) + EntryFrom(to, from[i])
  {
    assert from[..i + 1][..i] == from[..i];
  }

  lemma {:induction false} CountConcat<K>(a: seq<Entry<K>>, b: seq<Entry<K>>)
    ensures forall c :: CountOf(a + b, c) == CountOf(a, c) + CountOf(b, c)
    decreases |b|
  {
    if b == [] {
      assert a + b == a;
    } else {
      CountConcat(a, b[..|b| - 1]);
      assert (a + b)[..|a + b| - 1] == a + b[..|b| - 1];
    }
  }
}
