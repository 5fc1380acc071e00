/** Sorting by a caller-supplied order, and the lexicographic order on strings. */
module Ordering {

  ghost predicate Asymmetric<T(!new)>(less: (T, T) -> bool) {
    forall x, y :: less(x, y) ==> !less(y, x)
  }

  ghost predicate Transitive<T(!new)>(less: (T, T) -> bool) {
    forall x, y, z :: less(x, y) && less(y, z) ==> less(x, z)
  }

  ghost predicate StrictOrder<T(!new)>(less: (T, T) -> bool) {
    Asymmetric(less) && Transitive(less)
  }

  /** Strictly ascending, hence without duplicates. */
  ghost predicate Ascending<T>(xs: seq<T>, less: (T, T) -> bool) {
    forall i, j :: 0 <= i < j < |xs| ==> less(xs[i], xs[j])
  }

  /** Any two entries at different positions are comparable. */
  ghost predicate Comparable<T>(xs: seq<T>, less: (T, T) -> bool) {
    forall i, j :: 0 <= i < j < |xs| ==> less(xs[i], xs[j]) || less(xs[j], xs[i])
  }

  /** An ascending listing is determined by the elements it lists. */
  lemma {:induction false} AscendingUnique<T(!new)>(a: seq<T>, b: seq<T>, less: (T, T) -> bool)
    requires StrictOrder(less)
    requires Ascending(a, less) && Ascending(b, less)
    requires forall x :: x in a <==> x in b
    ensures a == b
  {
    assert a != [] ==> a[0] in b;
    assert b != [] ==> b[0] in a;
    if a != [] {
      SameFirst(a, b, less);
      forall x
        ensures x in a[1..] <==> x in b[1..]
      {
        TailMembership(a, x, less);
        TailMembership(b, x, less);
      }
      AscendingUnique(a[1..], b[1..], less);
      assert a == [a[0]] + a[1..] && b == [b[0]] + b[1..];
    }
  }

  lemma SameFirst<T(!new)>(a: seq<T>, b: seq<T>, less: (T, T) -> bool)
    requires StrictOrder(less)
    requires Ascending(a, less) && Ascending(b, less)
    requires a != [] && b != [] && a[0] in b && b[0] in a
    ensures a[0] == b[0]
  {
    var j :| 0 <= j < |b| && b[j] == a[0];
    var k :| 0 <= k < |a| && a[k] == b[0];
    assert forall i :: 0 < i < |b| ==> less(b[0], b[i]);
    assert forall i :: 0 < i < |a| ==> less(a[0], a[i]);
  }

  lemma TailMembership<T(!new)>(a: seq<T>, x: T, less: (T, T) -> bool)
    requires StrictOrder(less) && Ascending(a, less) && a != []
    ensures x in a[1..] <==> x in a && x != a[0]
  {
    if x in a[1..] {
      var i :| 0 <= i < |a[1..]| && a[1..][i] == x;
      assert less(a[0], a[i + 1]);
    }
    if x in a && x != a[0] {
      var i :| 0 <= i < |a| && a[i] == x;
      assert a[1..][i - 1] == x;
    }
  }

  // ---- a stable sort ----

  /** Puts `x` after every leading entry it is not below. */
  function Insert<T>(x: T, xs: seq<T>, less: (T, T) -> bool): (r: seq<T>)
    ensures multiset(r) == multiset(xs) + multiset{x}
  {
    if xs == [] then [x]
    else if less(x, xs[0]) then [x] + xs
    else
      assert xs == [xs[0]] + xs[1..];
      [xs[0]] + Insert(x, xs[1..], less)
  }

  /** Inserting the entries from left to right keeps equal ones in their old order. */
  function SortStable<T>(xs: seq<T>, less: (T, T) -> bool): (r: seq<T>)
    ensures multiset(r) == multiset(xs)
  {
    if xs == [] then []
    else
      assert xs == xs[..|xs| - 1] + [xs[|xs| - 1]];
      Insert(xs[|xs| - 1], SortStable(xs[..|xs| - 1], less), less)
  }

  lemma SortMembers<T(!new)>(xs: seq<T>, less: (T, T) -> bool)
    ensures |SortStable(xs, less)| == |xs|
    ensures forall x :: x in SortStable(xs, less) <==> x in xs
  {
    var r := SortStable(xs, less);
    assert |r| == |multiset(r)|;
    forall x
      ensures x in r <==> x in xs
    {
      assert x in r <==> x in multiset(r);
      assert x in xs <==> x in multiset(xs);
    }
  }

  lemma {:induction false} InsertAscending<T(!new)>(x: T, xs: seq<T>, less: (T, T) -> bool)
    requires Transitive(less) && Ascending(xs, less)
    requires forall i :: 0 <= i < |xs| ==> less(x, xs[i]) || less(xs[i], x)
    ensures Ascending(Insert(x, xs, less), less)
  {
    if xs != [] && !less(x, xs[0]) {
      InsertAscending(x, xs[1..], less);
      var tail := Insert(x, xs[1..], less);
      forall j | 0 <= j < |tail|
        ensures less(xs[0], tail[j])
      {
        assert tail[j] in multiset(tail);
        assert tail[j] in xs[1..] || tail[j] == x;
        if tail[j] != x {
          var k :| 0 <= k < |xs[1..]| && xs[1..][k] == tail[j];
          assert less(xs[0], xs[k + 1]);
        }
      }
    }
  }

  lemma {:induction false} SortAscending<T(!new)>(xs: seq<T>, less: (T, T) -> bool)
    requires Transitive(less) && Comparable(xs, less)
    ensures Ascending(SortStable(xs, less), less)
  {
    if xs != [] {
      var front := xs[..|xs| - 1];
      SortAscending(front, less);
      SortMembers(front, less);
      var sorted := SortStable(front, less);
      forall i | 0 <= i < |sorted|
        ensures less(xs[|xs| - 1], sorted[i]) || less(sorted[i], xs[|xs| - 1])
      {
        assert sorted[i] in front;
        var k :| 0 <= k < |front| && front[k] == sorted[i];
        assert less(xs[k], xs[|xs| - 1]) || less(xs[|xs| - 1], xs[k]);
      }
      InsertAscending(xs[|xs| - 1], sorted, less);
    }
  }

  // ---- strings ----

  /** Go's `<` on strings; on UTF-8 bytes and on code points it is the same order. */
  predicate StrLess(a: string, b: string) {
    b != "" && (a == "" || a[0] < b[0] || (a[0] == b[0] && StrLess(a[1..], b[1..])))
  }

  lemma {:induction false} StrLessTrichotomy(a: string, b: string)
    ensures StrLess(a, b) ==> !StrLess(b, a)
    ensures a == b || StrLess(a, b) || StrLess(b, a)
    ensures !StrLess(a, a)
    decreases |a|
  {
    if a != "" {
      StrLessTrichotomy(a[1..], a[1..]);
      if b != "" && a[0] == b[0] {
        StrLessTrichotomy(a[1..], b[1..]);
        assert a == [a[0]] + a[1..] && b == [b[0]] + b[1..];
      }
    }
  }

  lemma {:induction false} StrLessTransitive(a: string, b: string, c: string)
    requires StrLess(a, b) && StrLess(b, c)
    ensures StrLess(a, c)
    decreases |a|
  {
    if a != "" && a[0] == b[0] == c[0] {
      StrLessTransitive(a[1..], b[1..], c[1..]);
    }
  }

  lemma StrLessIsStrictOrder()
    ensures StrictOrder(StrLess)
  {
    forall a, b | StrLess(a, b)
      ensures !StrLess(b, a)
    {
      StrLessTrichotomy(a, b);
    }
    forall a, b, c | StrLess(a, b) && StrLess(b, c)
      ensures StrLess(a, c)
    {
      StrLessTransitive(a, b, c);
    }
  }

  /** Distinct strings sort into an ascending list. */
  lemma DistinctStringsComparable(xs: seq<string>)
    requires forall i, j :: 0 <= i < j < |xs| ==> xs[i] != xs[j]
    ensures Comparable(xs, StrLess)
  {
    forall i, j | 0 <= i < j < |xs|
      ensures StrLess(xs[i], xs[j]) || StrLess(xs[j], xs[i])
    {
      StrLessTrichotomy(xs[i], xs[j]);
    }
  }
}
