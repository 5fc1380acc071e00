/** Listing the local object store: a walk below a prefix, cut at a limit, that passes over the
    names of unfinished uploads. */
module ObjectListing {
  import opened Text
  import opened Ordering
  import opened StorageKeys

  /** The end of the name of an upload in progress. */
  const PART := ".part"

  datatype Listing = Listing(keys: seq<string>, truncated: bool)

  predicate HasSuffix(s: string, suffix: string) {
    |suffix| <= |s| && s[|s| - |suffix|..] == suffix
  }

  function TrimSuffix(s: string, suffix: string): string {
    if HasSuffix(s, suffix) then s[..|s| - |suffix|] else s
  }

  // ---- the order of the walk ----

  /** Directories are read in name order, and a directory is walked before its next sibling: paths
      come segment by segment, which is not their order as strings. */
  predicate SegmentsLess(a: seq<string>, b: seq<string>) {
    b != [] && (a == [] || StrLess(a[0], b[0]) || (a[0] == b[0] && SegmentsLess(a[1..], b[1..])))
  }

  predicate WalkLess(a: string, b: string) {
    SegmentsLess(Split(a, '/'), Split(b, '/'))
  }

  lemma {:induction false} SegmentsTrichotomy(a: seq<string>, b: seq<string>)
    ensures SegmentsLess(a, b) ==> !SegmentsLess(b, a)
    ensures a == b || SegmentsLess(a, b) || SegmentsLess(b, a)
    ensures !SegmentsLess(a, a)
    decreases |a|
  {
    hide StrLess;
    if a != [] {
      StrLessTrichotomy(a[0], a[0]);
      SegmentsTrichotomy(a[1..], a[1..]);
      if b != [] {
        StrLessTrichotomy(a[0], b[0]);
        if a[0] == b[0] {
          SegmentsTrichotomy(a[1..], b[1..]);
          assert a == [a[0]] + a[1..] && b == [b[0]] + b[1..];
        }
      }
    }
  }

  lemma {:induction false} SegmentsTransitive(a: seq<string>, b: seq<string>, c: seq<string>)
    requires SegmentsLess(a, b) && SegmentsLess(b, c)
    ensures SegmentsLess(a, c)
    decreases |a|
  {
    hide StrLess;
    if a != [] {
      if a[0] == b[0] == c[0] {
        if SegmentsLess(a[1..], b[1..]) && SegmentsLess(b[1..], c[1..]) {
          SegmentsTransitive(a[1..], b[1..], c[1..]);
        }
      }
      if StrLess(a[0], b[0]) && StrLess(b[0], c[0]) {
        StrLessTransitive(a[0], b[0], c[0]);
      }
    }
  }

  lemma WalkTrichotomy(a: string, b: string)
    ensures WalkLess(a, b) ==> !WalkLess(b, a)
    ensures a == b || WalkLess(a, b) || WalkLess(b, a)
    ensures !WalkLess(a, a)
  {
    hide Split, SegmentsLess;
    SegmentsTrichotomy(Split(a, '/'), Split(b, '/'));
    SegmentsTrichotomy(Split(a, '/'), Split(a, '/'));
    JoinSplit(a, '/');
    JoinSplit(b, '/');
  }

  lemma WalkLessIsStrictOrder()
    ensures StrictOrder(WalkLess)
  {
    hide Split, SegmentsLess;
    forall a, b | WalkLess(a, b)
      ensures !WalkLess(b, a)
    {
      WalkTrichotomy(a, b);
    }
    forall a, b, c | WalkLess(a, b) && WalkLess(b, c)
      ensures WalkLess(a, c)
    {
      SegmentsTransitive(Split(a, '/'), Split(b, '/'), Split(c, '/'));
    }
  }

  // ---- what a listing shows ----

  function Base(prefix: string): string {
    TrimSuffix(prefix, "/")
  }

  predicate ValidPrefix(prefix: string) {
    prefix == "" || ValidKey(Base(prefix))
  }

  /** The key lies in the directory, or is the file, that the base names. */
  predicate Under(base: string, key: string) {
    base == "" || key == base || HasPrefix(key, base + "/")
  }

  predicate Listable(prefix: string, key: string) {
    Under(Base(prefix), key) && !HasSuffix(key, PART)
  }

  function Visible(objects: set<string>, prefix: string): set<string> {
    set k | k in objects && Listable(prefix, k)
  }

  /** A prefix names a directory or file by a valid key, with or without a slash at its end; the empty
      prefix names the whole store. */
  lemma ValidPrefixIff(prefix: string)
    ensures ValidPrefix(prefix) <==>
      prefix == "" || ValidKey(prefix) || exists key :: ValidKey(key) && prefix == key + "/"
    ensures ValidKey(prefix) ==> Base(prefix) == prefix && Base(prefix + "/") == prefix
  {
    if ValidKey(prefix) {
      ValidKeyEndsInName(prefix);
      assert (prefix + "/")[..|prefix|] == prefix;
    }
    if HasSuffix(prefix, "/") {
      assert prefix == Base(prefix) + "/";
    }
    forall key | ValidKey(key) && prefix == key + "/"
      ensures Base(prefix) == key
    {
      assert prefix[..|key|] == key;
    }
  }

  lemma ValidKeyEndsInName(key: string)
    requires ValidKey(key)
    ensures key != "" && !HasSuffix(key, "/")
  {
    if HasSuffix(key, "/") {
      var front := key[..|key| - 1];
      assert key == front + ['/'];
      SplitAppendSeparator(front, '/');
      assert Split(key, '/')[|Split(front, '/')|] == "";
      assert "" in Split(key, '/');
    }
  }

  /** A key lies below another path exactly when its pieces begin with that path's. */
  lemma UnderIff(base: string, key: string)
    requires base != ""
    ensures Under(base, key) <==> Split(base, '/') <= Split(key, '/')
  {
    hide Split, Join;
    if HasPrefix(key, base + "/") {
      var rest := key[|base| + 1..];
      assert key == base + ['/'] + rest;
      SplitBetween(base, rest, '/');
    }
    if Split(base, '/') <= Split(key, '/') {
      PiecesBegin(base, key);
    }
  }

  lemma PiecesBegin(base: string, key: string)
    requires Split(base, '/') <= Split(key, '/')
    ensures key == base || HasPrefix(key, base + "/")
  {
    hide Split, Join;
    var bs, ks := Split(base, '/'), Split(key, '/');
    JoinSplit(base, '/');
    JoinSplit(key, '/');
    if |bs| < |ks| {
      var rest := ks[|bs|..];
      assert ks == bs + rest;
      JoinAppend(bs, rest, '/');
      assert key == (base + "/") + Join(rest, '/');
    } else {
      assert bs == ks;
    }
  }

  /** A key ends like an unfinished upload exactly when its file name does. */
  lemma PartIsInName(key: string)
    ensures HasSuffix(key, PART) <==> HasSuffix(Split(key, '/')[|Split(key, '/')| - 1], ".part")
  {
    hide Split, Join, HasSuffix;
    var ks := Split(key, '/');
    var name := ks[|ks| - 1];
    JoinSplit(key, '/');
    if |ks| > 1 {
      var front := ks[..|ks| - 1];
      assert ks == front + [name];
      JoinAppend(front, [name], '/');
      JoinOfOne(name);
      SuffixOfLast(Join(front, '/'), name);
    } else {
      assert ks == [name];
      JoinOfOne(name);
    }
  }

  lemma JoinOfOne(name: string)
    ensures Join([name], '/') == name
  {
  }

  lemma SuffixOfLast(front: string, name: string)
    ensures HasSuffix(front + ['/'] + name, ".part") <==> HasSuffix(name, ".part")
  {
    var key := front + ['/'] + name;
    if |name| >= 5 {
      assert key[|key| - 5..] == name[|name| - 5..];
    } else if |key| >= 5 {
      assert key[|key| - 5..][4 - |name|] == '/' && ".part"[4 - |name|] != '/';
    }
  }

  /** The visible keys in key order; or, when there are more than a positive limit, the first of the
      walk up to the limit, and a note that there are more. */
  ghost predicate Lists(objects: set<string>, prefix: string, limit: int, l: Listing) {
    && Ascending(l.keys, StrLess)
    && (forall k :: k in l.keys ==> k in Visible(objects, prefix))
    && (l.truncated <==> limit > 0 && |Visible(objects, prefix)| > limit)
    && (!l.truncated ==> forall k :: k in Visible(objects, prefix) ==> k in l.keys)
    && (l.truncated ==> |l.keys| == limit)
    && forall k, u :: k in l.keys && u in Visible(objects, prefix) && u !in l.keys ==> WalkLess(k, u)
  }

  // ---- the walk ----

  ghost predicate NoRepeats(keys: seq<string>) {
    forall i, j :: 0 <= i < j < |keys| ==> keys[i] != keys[j]
  }

  function KeySet(keys: seq<string>): set<string> {
    set k | k in keys
  }

  lemma {:induction false} NoRepeatsSize(keys: seq<string>)
    requires NoRepeats(keys)
    ensures |KeySet(keys)| == |keys|
  {
    if keys != [] {
      var front, last := keys[..|keys| - 1], keys[|keys| - 1];
      NoRepeatsSize(front);
      assert keys == front + [last];
      assert KeySet(keys) == KeySet(front) + {last};
    }
  }

  /** The files below the base, in the order of the walk. */
  method Walk(objects: set<string>, base: string) returns (files: seq<string>)
    ensures Ascending(files, WalkLess) && forall k :: k in files <==> k in objects && Under(base, k)
  {
    hide WalkLess, Under, SortStable;
    var found: seq<string> := [];
    var pending := objects;
    while pending != {}
      invariant pending <= objects && NoRepeats(found)
      invariant forall k :: k in found <==> k in objects && k !in pending && Under(base, k)
      decreases pending
    {
      var k :| k in pending;
      pending := pending - {k};
      if Under(base, k) {
        found := found + [k];
      }
    }
    WalkLessIsStrictOrder();
    forall i, j | 0 <= i < j < |found|
      ensures WalkLess(found[i], found[j]) || WalkLess(found[j], found[i])
    {
      WalkTrichotomy(found[i], found[j]);
    }
    SortAscending(found, WalkLess);
    SortMembers(found, WalkLess);
    files := SortStable(found, WalkLess);
  }

  /** What has been listed when `i` files of the walk have been passed. */
  ghost predicate ListedSoFar(files: seq<string>, i: nat, out: seq<string>) {
    && i <= |files| && NoRepeats(out)
    && forall k :: k in out <==> k in files[..i] && !HasSuffix(k, PART)
  }

  lemma ListedNext(files: seq<string>, i: nat, out: seq<string>)
    requires Ascending(files, WalkLess) && ListedSoFar(files, i, out) && i < |files|
    ensures files[i] !in out
    ensures HasSuffix(files[i], PART) ==> ListedSoFar(files, i + 1, out)
    ensures !HasSuffix(files[i], PART) ==> ListedSoFar(files, i + 1, out + [files[i]])
  {
    hide WalkLess, HasSuffix;
    assert files[..i + 1] == files[..i] + [files[i]];
    forall j | 0 <= j < i
      ensures files[j] != files[i]
    {
      WalkTrichotomy(files[j], files[i]);
    }
  }

  lemma ListedAreVisible(objects: set<string>, prefix: string, files: seq<string>, i: nat, out: seq<string>)
    requires forall k :: k in files <==> k in objects && Under(Base(prefix), k)
    requires ListedSoFar(files, i, out)
    ensures NoRepeats(out) && forall k :: k in out ==> k in Visible(objects, prefix)
    ensures i == |files| ==> forall k :: k in Visible(objects, prefix) ==> k in out
  {
    hide HasSuffix, Under, NoRepeats;
    assert forall k :: k in files[..i] ==> k in files;
    assert files[..|files|] == files;
  }

  lemma SortedKeys(out: seq<string>)
    requires NoRepeats(out)
    ensures Ascending(SortStable(out, StrLess), StrLess) && |SortStable(out, StrLess)| == |out|
    ensures forall k :: k in SortStable(out, StrLess) <==> k in out
  {
    StrLessIsStrictOrder();
    DistinctStringsComparable(out);
    SortAscending(out, StrLess);
    SortMembers(out, StrLess);
  }

  lemma ListingComplete(objects: set<string>, prefix: string, limit: int, files: seq<string>, out: seq<string>)
    requires forall k :: k in files <==> k in objects && Under(Base(prefix), k)
    requires ListedSoFar(files, |files|, out) && (limit > 0 ==> |out| <= limit)
    ensures Lists(objects, prefix, limit, Listing(SortStable(out, StrLess), false))
  {
    hide Visible, Ascending, NoRepeats, ListedSoFar, Under, WalkLess, SortStable, StrLess;
    ListedAreVisible(objects, prefix, files, |files|, out);
    assert Visible(objects, prefix) == KeySet(out);
    NoRepeatsSize(out);
    SortedKeys(out);
  }

  /** Everything visible that is not listed yet comes later in the walk. */
  lemma UnlistedComeLater(objects: set<string>, prefix: string, files: seq<string>, i: nat, out: seq<string>, k: string, u: string)
    requires Ascending(files, WalkLess) && forall x :: x in files <==> x in objects && Under(Base(prefix), x)
    requires ListedSoFar(files, i, out) && k in out && u in Visible(objects, prefix) && u !in out
    ensures WalkLess(k, u)
  {
    hide HasSuffix, Under, WalkLess;
    assert u in files;
    var p :| 0 <= p < |files| && files[p] == u;
    var q :| 0 <= q < i && files[..i][q] == k;
    assert u !in files[..i] && forall j :: 0 <= j < i ==> files[j] in files[..i];
  }

  lemma NextIsVisible(objects: set<string>, prefix: string, files: seq<string>, i: nat)
    requires forall k :: k in files <==> k in objects && Under(Base(prefix), k)
    requires i < |files| && !HasSuffix(files[i], PART)
    ensures files[i] in Visible(objects, prefix)
  {
  }

  lemma ListingCut(objects: set<string>, prefix: string, limit: int, files: seq<string>, i: nat, out: seq<string>)
    requires Ascending(files, WalkLess) && forall k :: k in files <==> k in objects && Under(Base(prefix), k)
    requires ListedSoFar(files, i, out) && i < |files| && !HasSuffix(files[i], PART) && |out| == limit > 0
    ensures Lists(objects, prefix, limit, Listing(SortStable(out, StrLess), true))
  {
    hide Visible, Ascending, NoRepeats, ListedSoFar, HasSuffix, Under, WalkLess, SortStable, StrLess;
    ListedNext(files, i, out);
    ListedAreVisible(objects, prefix, files, i, out);
    NextIsVisible(objects, prefix, files, i);
    SortedKeys(out);
    NoRepeatsSize(out);
    SubsetSize(KeySet(out) + {files[i]}, Visible(objects, prefix));
    forall k, u | k in out && u in Visible(objects, prefix) && u !in out
      ensures WalkLess(k, u)
    {
      UnlistedComeLater(objects, prefix, files, i, out, k, u);
    }
  }

  lemma SubsetSize(a: set<string>, b: set<string>)
    requires a <= b
    ensures |a| <= |b|
  {
    assert b == a + (b - a);
  }

  /** Walks the files below the prefix, stops at the first one over the limit, and sorts what it
      has; `fails` stands for an error of the walk. */
  method ListObjects(objects: set<string>, prefix: string, limit: int, fails: bool) returns (r: Option<Listing>)
    ensures r.Some? <==> ValidPrefix(prefix) && !fails
    ensures r.Some? ==> Lists(objects, prefix, limit, r.value)
  {
    hide Ascending, Lists, ListedSoFar, HasSuffix, Under, WalkLess, SortStable, StrLess, ValidKey;
    if prefix != "" {
      var ok := ValidateKey(TrimSuffix(prefix, "/"));
      if !ok {
        return None;
      }
    }
    if fails {
      return None;
    }
    var files := Walk(objects, Base(prefix));
    var out: seq<string> := [];
    NothingListed(files);
    var i := 0;
    while i < |files|
      invariant 0 <= i <= |files| && ListedSoFar(files, i, out) && (limit > 0 ==> |out| <= limit)
    {
      ListedNext(files, i, out);
      if !HasSuffix(files[i], PART) {
        if limit > 0 && |out| == limit {
          ListingCut(objects, prefix, limit, files, i, out);
          return Some(Listing(SortStable(out, StrLess), true));
        }
        out := out + [files[i]];
      }
      i := i + 1;
    }
    ListingComplete(objects, prefix, limit, files, out);
    return Some(Listing(SortStable(out, StrLess), false));
  }

  lemma NothingListed(files: seq<string>)
    ensures ListedSoFar(files, 0, [])
  {
  }

  /** A store and a prefix have one listing. */
  lemma ListingUnique(objects: set<string>, prefix: string, limit: int, l: Listing, m: Listing)
    requires Lists(objects, prefix, limit, l) && Lists(objects, prefix, limit, m)
    ensures l == m
  {
    ListingsAgree(objects, prefix, limit, l, m);
    ListingsAgree(objects, prefix, limit, m, l);
    StrLessIsStrictOrder();
    AscendingUnique(l.keys, m.keys, StrLess);
  }

  lemma ListingsAgree(objects: set<string>, prefix: string, limit: int, l: Listing, m: Listing)
    requires Lists(objects, prefix, limit, l) && Lists(objects, prefix, limit, m)
    ensures forall k :: k in l.keys ==> k in m.keys
  {
    hide WalkLess, Visible;
    AscendingKeysSize(l.keys);
    AscendingKeysSize(m.keys);
    forall k | k in l.keys
      ensures k in m.keys
    {
      if l.truncated && k !in m.keys {
        if forall x :: x in m.keys ==> x in l.keys {
          SubsetSize(KeySet(m.keys) + {k}, KeySet(l.keys));
        } else {
          var x :| x in m.keys && x !in l.keys;
          WalkTrichotomy(k, x);
        }
      }
    }
  }

  lemma AscendingKeysSize(keys: seq<string>)
    requires Ascending(keys, StrLess)
    ensures |KeySet(keys)| == |keys|
  {
    forall i, j | 0 <= i < j < |keys|
      ensures keys[i] != keys[j]
    {
      StrLessTrichotomy(keys[i], keys[i]);
    }
    NoRepeatsSize(keys);
  }
}
