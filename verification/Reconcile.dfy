/** The report-only comparison of the artifact table with the object store. */
module Reconcile {
  import opened Text
  import opened Ordering
  import opened Cascade
  import opened ArtifactGC
  import opened StorageKeys
  import opened ObjectListing

  /** `out` lists, ascending and once each, the non-empty keys of `keys` that `others` lacks. */
  ghost predicate IsDifference(out: seq<string>, keys: seq<string>, others: seq<string>) {
    && Ascending(out, StrLess)
    && forall k :: k in out <==> k in keys && k != "" && k !in others
  }

  lemma DifferenceUnique(a: seq<string>, b: seq<string>, keys: seq<string>, others: seq<string>)
    requires IsDifference(a, keys, others) && IsDifference(b, keys, others)
    ensures a == b
  {
    StrLessIsStrictOrder();
    AscendingUnique(a, b, StrLess);
  }

  method NonEmptyKeys(keys: seq<string>) returns (out: set<string>)
    ensures forall k :: k in out <==> k in keys && k != ""
  {
    out := {};
    for i := 0 to |keys|
      invariant forall k :: k in out <==> k in keys[..i] && k != ""
    {
      assert keys[..i + 1] == keys[..i] + [keys[i]];
      if keys[i] == "" {
        continue;
      }
      out := out + {keys[i]};
    }
    assert keys[..|keys|] == keys;
  }

  /** The keys of one set that the other lacks, sorted; the sets are walked in no particular order. */
  method SortedDifference(these: set<string>, those: set<string>) returns (out: seq<string>)
    ensures Ascending(out, StrLess) && forall k :: k in out <==> k in these && k !in those
  {
    var found: seq<string> := [];
    var pending := these;
    while pending != {}
      invariant pending <= these
      invariant forall i, j :: 0 <= i < j < |found| ==> found[i] != found[j]
      invariant forall k :: k in found <==> k in these && k !in pending && k !in those
      decreases pending
    {
      var k :| k in pending;
      pending := pending - {k};
      if k !in those {
        found := found + [k];
      }
    }
    StrLessIsStrictOrder();
    DistinctStringsComparable(found);
    SortAscending(found, StrLess);
    SortMembers(found, StrLess);
    out := SortStable(found, StrLess);
  }

  /** Both differences of the two key lists, each in ascending order. */
  method DiffStorageKeys(dbKeys: seq<string>, objectKeys: seq<string>) returns (missing: seq<string>, orphan: seq<string>)
    ensures IsDifference(missing, dbKeys, objectKeys) && IsDifference(orphan, objectKeys, dbKeys)
  {
    var inDB := NonEmptyKeys(dbKeys);
    var inStore := NonEmptyKeys(objectKeys);
    missing := SortedDifference(inDB, inStore);
    orphan := SortedDifference(inStore, inDB);
  }

  datatype Reconciliation = Reconciliation(
    dbKeys: nat, objectKeys: nat, missingObjects: nat, orphanObjects: nat,
    missingSample: seq<string>, orphanSample: seq<string>, truncated: bool)

  const DEFAULT_MAX_SAMPLE := 100

  function CapList(keys: seq<string>, n: nat): (r: seq<string>)
    ensures r <= keys && |r| == if |keys| <= n then |keys| else n
  {
    if |keys| <= n then keys else keys[..n]
  }

  function SampleSize(maxSample: int): nat {
    if maxSample <= 0 then DEFAULT_MAX_SAMPLE else maxSample
  }

  /** What a report of the two sides says: exact counts, and the beginning of each difference. */
  ghost predicate Reports(r: Reconciliation, dbKeys: seq<string>, listed: Listing, maxSample: int,
                          missing: seq<string>, orphan: seq<string>) {
    && IsDifference(missing, dbKeys, listed.keys) && IsDifference(orphan, listed.keys, dbKeys)
    && r == Reconciliation(|dbKeys|, |listed.keys|, |missing|, |orphan|,
                           CapList(missing, SampleSize(maxSample)), CapList(orphan, SampleSize(maxSample)), listed.truncated)
  }

  /** One pass over what the store lists and the table holds; nothing is deleted, and there is no
      report when either side cannot be listed. */
  method RunOnce(listed: Option<Listing>, dbKeys: Option<seq<string>>, maxSample: int) returns (r: Option<Reconciliation>)
    ensures r.Some? <==> listed.Some? && dbKeys.Some?
    ensures r.Some? ==> exists missing, orphan :: Reports(r.value, dbKeys.value, listed.value, maxSample, missing, orphan)
  {
    if listed == None {
      return None;
    }
    if dbKeys == None {
      return None;
    }
    var missing, orphan := DiffStorageKeys(dbKeys.value, listed.value.keys);
    var sample := if maxSample <= 0 then DEFAULT_MAX_SAMPLE else maxSample;
    var report := Reconciliation(|dbKeys.value|, |listed.value.keys|, |missing|, |orphan|,
                                 CapList(missing, sample), CapList(orphan, sample), listed.value.truncated);
    assert Reports(report, dbKeys.value, listed.value, maxSample, missing, orphan);
    r := Some(report);
  }

  /** The non-empty keys of one side that the other lacks. */
  function Lacking(keys: seq<string>, others: seq<string>): set<string> {
    set k | k in keys && k != "" && k !in others
  }

  /** The first keys in order of a set, as many as asked for or as there are. */
  ghost predicate FirstOfSet(sample: seq<string>, keys: set<string>, atMost: int) {
    && |sample| == (if |keys| < atMost then |keys| else atMost)
    && (forall i, j :: 0 <= i < j < |sample| ==> StrLess(sample[i], sample[j]))
    && (forall k :: k in sample ==> k in keys)
    && forall k, u :: k in sample && u in keys && u !in sample ==> StrLess(k, u)
  }

  lemma AscendingSize(keys: seq<string>)
    requires Ascending(keys, StrLess)
    ensures |KeySet(keys)| == |keys|
  {
    forall i, j | 0 <= i < j < |keys|
      ensures keys[i] != keys[j]
    {
      assert StrLess(keys[i], keys[j]);
      StrLessTrichotomy(keys[i], keys[i]);
    }
    NoRepeatsSize(keys);
  }

  lemma SampleOfDifference(out: seq<string>, keys: seq<string>, others: seq<string>, n: nat)
    requires IsDifference(out, keys, others)
    ensures |out| == |Lacking(keys, others)|
    ensures FirstOfSet(CapList(out, n), Lacking(keys, others), n)
  {
    AscendingSize(out);
    assert KeySet(out) == Lacking(keys, others);
    var sample := CapList(out, n);
    forall k, u | k in sample && u in Lacking(keys, others)
      ensures u in sample || StrLess(k, u)
    {
      var i :| 0 <= i < |sample| && sample[i] == k;
      var j :| 0 <= j < |out| && out[j] == u;
      if j < |sample| {
        assert sample[j] == u;
      }
    }
  }

  /** A report counts what each side lists and lacks, and shows the first keys of each difference: as many
      as asked for, or a hundred. */
  lemma ReportIsExact(r: Reconciliation, dbKeys: seq<string>, listed: Listing, maxSample: int,
                      missing: seq<string>, orphan: seq<string>)
    requires Reports(r, dbKeys, listed, maxSample, missing, orphan)
    ensures r.dbKeys == |dbKeys| && r.objectKeys == |listed.keys| && r.truncated == listed.truncated
    ensures r.missingObjects == |Lacking(dbKeys, listed.keys)| && r.orphanObjects == |Lacking(listed.keys, dbKeys)|
    ensures FirstOfSet(r.missingSample, Lacking(dbKeys, listed.keys), if maxSample > 0 then maxSample else 100)
    ensures FirstOfSet(r.orphanSample, Lacking(listed.keys, dbKeys), if maxSample > 0 then maxSample else 100)
  {
    hide Lacking, FirstOfSet, IsDifference, CapList;
    SampleOfDifference(missing, dbKeys, listed.keys, SampleSize(maxSample));
    SampleOfDifference(orphan, listed.keys, dbKeys, SampleSize(maxSample));
  }

  // ---- what the report says about the table and the store ----

  /** The table's keys, each as often as rows have it. */
  ghost predicate KeysOfRows(dbKeys: seq<string>, f: Files) {
    forall k :: k in dbKeys <==> exists id :: id in f.rows && f.rows[id].storageKey == k
  }

  /** However incomplete the listing, a key reported as orphan is one; the orphans it can miss are
      those that were not listed. */
  lemma OrphansAreReal(f: Files, dbKeys: seq<string>, listed: seq<string>, orphan: seq<string>, k: string)
    requires KeysOfRows(dbKeys, f) && IsDifference(orphan, listed, dbKeys)
    requires forall x :: x in listed ==> x in f.objects
    ensures k in orphan <==> k in Orphans(f) && k in listed
  {
  }

  predicate Overlooked(prefix: string, l: Listing, k: string) {
    k != "" && (!Under(Base(prefix), k) || HasSuffix(k, PART) || (l.truncated && k !in l.keys))
  }

  /** Every missing object is reported, and exactly these stored ones are accused besides: those of
      rows whose key lies outside the prefix, those whose name ends like an unfinished upload, and
      those the limit cut off. */
  lemma MissingReported(f: Files, dbKeys: seq<string>, prefix: string, limit: int, l: Listing, missing: seq<string>, k: string)
    requires KeysOfRows(dbKeys, f) && Lists(f.objects, prefix, limit, l) && IsDifference(missing, dbKeys, l.keys)
    ensures k in missing <==> k in Missing(f) || (k in dbKeys && k in f.objects && Overlooked(prefix, l, k))
  {
    hide Under, HasSuffix;
    MissingKeys(f, dbKeys, k);
  }

  lemma MissingKeys(f: Files, dbKeys: seq<string>, k: string)
    requires KeysOfRows(dbKeys, f)
    ensures k in Missing(f) <==> k in dbKeys && k != "" && k !in f.objects
  {
  }

  /** From the key, the prefix and the listing alone it is certain whether the object is stored. */
  predicate Settled(prefix: string, l: Listing, k: string) {
    || k in l.keys
    || !ValidKey(k)
    || (Listable(prefix, k) && (l.truncated ==> exists x :: x in l.keys && WalkLess(k, x)))
  }

  ghost predicate Stored(objects: set<string>) {
    forall k :: k in objects ==> ValidKey(k)
  }

  /** The report is right about every store that has this listing. */
  ghost predicate ExactWhateverStored(rows: map<Id, Artifact>, prefix: string, limit: int, l: Listing, missing: seq<string>) {
    forall objects :: Stored(objects) && Lists(objects, prefix, limit, l) ==>
      forall k :: k in missing <==> k in Missing(Files(rows, objects))
  }

  /** The report of missing objects can be relied on if and only if every row's key is settled: it
      was listed, or cannot be stored, or would have been listed, being below the prefix, not named
      like an unfinished upload and, if the listing was cut, before some listed key in the walk. */
  lemma MissingExactIff(rows: map<Id, Artifact>, dbKeys: seq<string>, prefix: string, limit: int, l: Listing,
                        missing: seq<string>, store: set<string>)
    requires Stored(store) && Lists(store, prefix, limit, l)
    requires KeysOfRows(dbKeys, Files(rows, store)) && IsDifference(missing, dbKeys, l.keys)
    ensures ExactWhateverStored(rows, prefix, limit, l, missing) <==> forall k :: k in dbKeys ==> Settled(prefix, l, k)
  {
    if forall k :: k in dbKeys ==> Settled(prefix, l, k) {
      forall objects | Stored(objects) && Lists(objects, prefix, limit, l)
        ensures forall k :: k in missing <==> k in Missing(Files(rows, objects))
      {
        forall k
          ensures k in missing <==> k in Missing(Files(rows, objects))
        {
          SettledIsReported(rows, dbKeys, prefix, limit, l, missing, objects, k);
        }
      }
    } else {
      var k :| k in dbKeys && !Settled(prefix, l, k);
      UnsettledMisleads(rows, dbKeys, prefix, limit, l, missing, store, k);
    }
  }

  lemma SettledIsReported(rows: map<Id, Artifact>, dbKeys: seq<string>, prefix: string, limit: int, l: Listing,
                          missing: seq<string>, objects: set<string>, k: string)
    requires Stored(objects) && Lists(objects, prefix, limit, l) && (k in dbKeys ==> Settled(prefix, l, k))
    requires KeysOfRows(dbKeys, Files(rows, objects)) && IsDifference(missing, dbKeys, l.keys)
    ensures k in missing <==> k in Missing(Files(rows, objects))
  {
    MissingReported(Files(rows, objects), dbKeys, prefix, limit, l, missing, k);
    hide ValidKey, Under, HasSuffix, WalkLess, Missing;
    if k in objects && k !in l.keys && l.truncated && Settled(prefix, l, k) && Listable(prefix, k) {
      var x :| x in l.keys && WalkLess(k, x);
      WalkTrichotomy(k, x);
    }
  }

  /** An unsettled key may as well be stored: the listing would be the same. */
  lemma UnsettledFits(prefix: string, limit: int, l: Listing, store: set<string>, k: string)
    requires Stored(store) && Lists(store, prefix, limit, l) && !Settled(prefix, l, k)
    ensures Stored(store + {k}) && Lists(store + {k}, prefix, limit, l)
  {
    hide ValidKey, Under, HasSuffix, WalkLess, StrLess;
    var before, after := Visible(store, prefix), Visible(store + {k}, prefix);
    if Listable(prefix, k) {
      assert after == before + {k};
      forall x | x in l.keys
        ensures WalkLess(x, k)
      {
        WalkTrichotomy(x, k);
      }
    } else {
      assert after == before;
    }
    SubsetSize(before, after);
  }

  lemma UnsettledMisleads(rows: map<Id, Artifact>, dbKeys: seq<string>, prefix: string, limit: int, l: Listing,
                          missing: seq<string>, store: set<string>, k: string)
    requires Stored(store) && Lists(store, prefix, limit, l) && k in dbKeys && !Settled(prefix, l, k)
    requires KeysOfRows(dbKeys, Files(rows, store)) && IsDifference(missing, dbKeys, l.keys)
    ensures !ExactWhateverStored(rows, prefix, limit, l, missing)
  {
    UnsettledFits(prefix, limit, l, store, k);
    hide Lists, Under, HasSuffix, WalkLess;
    assert k in missing;
    assert k !in Missing(Files(rows, store + {k}));
  }

  // ---- one stored object accused for each cause ----

  /** A listing narrowed to the directory `a` accuses the stored object `b`. */
  lemma NarrowedListingAccuses(f: Files, id: Id, limit: int, l: Listing, missing: seq<string>)
    requires id in f.rows && f.rows[id].storageKey == "b" && "b" in f.objects
    requires Lists(f.objects, "a", limit, l) && IsDifference(missing, ["b"], l.keys) && KeysOfRows(["b"], f)
    ensures "b" in missing && "b" !in Missing(f)
  {
    hide Lists, Under, Base, HasSuffix;
    OutsideDirectory();
    MissingReported(f, ["b"], "a", limit, l, missing, "b");
    MissingKeys(f, ["b"], "b");
  }

  lemma OutsideDirectory()
    ensures !Under(Base("a"), "b")
  {
    assert "a"[0] != "/"[0];
    assert Base("a") == "a";
  }

  /** A complete listing without a prefix accuses the stored object `a.part`, a valid key. */
  lemma PartNameIsAccused(f: Files, id: Id, limit: int, l: Listing, missing: seq<string>)
    requires id in f.rows && f.rows[id].storageKey == "a.part" && "a.part" in f.objects
    requires Lists(f.objects, "", limit, l) && IsDifference(missing, ["a.part"], l.keys) && KeysOfRows(["a.part"], f)
    ensures ValidKey("a.part") && "a.part" in missing && "a.part" !in Missing(f)
  {
    MissingReported(f, ["a.part"], "", limit, l, missing, "a.part");
    assert "a.part"[1..] == ".part";
    SplitWhole("a.part", '/');
  }

  /** A listing of at most one key accuses the stored object `b` when `a` is stored as well. */
  lemma CutListingAccuses(f: Files, id: Id, l: Listing, missing: seq<string>)
    requires id in f.rows && f.rows[id].storageKey == "b" && f.objects == {"a", "b"}
    requires Lists(f.objects, "", 1, l) && IsDifference(missing, ["b"], l.keys) && KeysOfRows(["b"], f)
    ensures "b" in missing && "b" !in Missing(f)
  {
    OneOfTwo(l);
    MissingReported(f, ["b"], "", 1, l, missing, "b");
  }

  lemma OneOfTwo(l: Listing)
    requires Lists({"a", "b"}, "", 1, l)
    ensures l == Listing(["a"], true)
  {
    SplitWhole("a", '/');
    SplitWhole("b", '/');
    assert WalkLess("a", "b");
    WalkTrichotomy("a", "b");
    assert Visible({"a", "b"}, "") == {"a", "b"};
    assert l.keys[0] in l.keys;
    assert l.keys == [l.keys[0]];
    hide WalkLess;
    assert l.keys[0] == "b" ==> "a" !in l.keys;
  }

  // ---- orphans and the collector ----

  /** A pass of the collector never lengthens the orphan report, whatever the prefix, unless the
      listing before it was cut. Even then it reports only what was an orphan before. */
  lemma CollectorAddsNoOrphanToReport(
    f: Files, batch: seq<Id>, calls: Id -> RowCalls, prefix: string, limit: int, limitAfter: int,
    dbBefore: seq<string>, before: Listing, orphanBefore: seq<string>,
    dbAfter: seq<string>, after: Listing, orphanAfter: seq<string>, k: string)
    requires Batchable(f, batch)
    requires KeysOfRows(dbBefore, f) && KeysOfRows(dbAfter, Passed(f, true, batch, calls))
    requires Lists(f.objects, prefix, limit, before)
    requires Lists(Passed(f, true, batch, calls).objects, prefix, limitAfter, after)
    requires IsDifference(orphanBefore, before.keys, dbBefore) && IsDifference(orphanAfter, after.keys, dbAfter)
    ensures k in orphanAfter ==> k in Orphans(f)
    ensures k in orphanAfter && !before.truncated ==> k in orphanBefore
  {
    var g := Passed(f, true, batch, calls);
    hide Passed, Listable, WalkLess;
    PassAddsNoOrphan(f, batch, calls);
    OrphansAreReal(f, dbBefore, before.keys, orphanBefore, k);
    OrphansAreReal(g, dbAfter, after.keys, orphanAfter, k);
  }

  /** With a cut listing it can: the pass removes the one object that was listed, and the orphan
      behind it comes into view. */
  lemma CutReportCanGrow(f: Files, id: Id, a: Artifact, before: Listing, orphanBefore: seq<string>,
                         after: Listing, orphanAfter: seq<string>)
    requires a.storageKey == "a" && f == Files(map[id := a], {"a", "b"})
    requires Lists(f.objects, "", 1, before) && IsDifference(orphanBefore, before.keys, ["a"])
    requires Lists(Passed(f, true, [id], NoFailures).objects, "", 1, after) && IsDifference(orphanAfter, after.keys, [])
    ensures orphanBefore == [] && orphanAfter == ["b"] && Passed(f, true, [id], NoFailures).rows == map[]
  {
    OneOfTwo(before);
    StrLessIsStrictOrder();
    AscendingUnique(orphanBefore, [], StrLess);
    var ids := [id];
    assert ids[..0] == [];
    assert Passed(f, true, ids, NoFailures) == Collected(f, true, id, NO_FAILURE);
    assert Passed(f, true, ids, NoFailures) == Files(map[], {"b"});
    assert Visible({"b"}, "") == {"b"};
    assert forall k :: k in orphanAfter <==> k in ["b"];
    AscendingUnique(orphanAfter, ["b"], StrLess);
  }
}
