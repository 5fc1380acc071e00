/** Temporary passwords: drawn from an alphabet, with one character of each class placed first and
    the whole then shuffled in place. */
module Passwords {
  import opened Text

  /** The letters and digits that cannot be mistaken for one another. */
  function Lowers(): string { "abcdefghijkmnpqrstuvwxyz" }

  function Uppers(): string { "ABCDEFGHJKLMNPQRSTUVWXYZ" }

  function Digits(): string { "23456789" }

  function Alphabet(): string {
    Lowers() + Uppers() + Digits()
  }

  /** The characters placed first: a digit, a lower-case and an upper-case letter. */
  function Placed(): string { "2aA" }

  const ALPHABET_SIZE := 56
  const LENGTH := 16

  /** The random numbers one password takes: one for each free character, then one for each swap. */
  const FREE := 13
  const SWAPS := 15

  predicate IsLower(c: char) {
    'a' <= c <= 'z'
  }

  predicate IsUpper(c: char) {
    'A' <= c <= 'Z'
  }

  ghost predicate MixesClasses(pw: string) {
    && (exists c :: c in pw && IsLower(c)) && (exists c :: c in pw && IsUpper(c)) && exists c :: c in pw && IsDigit(c)
  }

  method PasswordClassSatisfied(pw: string) returns (ok: bool)
    ensures ok <==> MixesClasses(pw)
  {
    var hasLower, hasUpper, hasDigit := false, false, false;
    for i := 0 to |pw|
      invariant hasLower <==> exists c :: c in pw[..i] && IsLower(c)
      invariant hasUpper <==> exists c :: c in pw[..i] && IsUpper(c)
      invariant hasDigit <==> exists c :: c in pw[..i] && IsDigit(c)
    {
      assert pw[..i + 1] == pw[..i] + [pw[i]];
      if IsLower(pw[i]) {
        hasLower := true;
      } else if IsUpper(pw[i]) {
        hasUpper := true;
      } else if IsDigit(pw[i]) {
        hasDigit := true;
      }
    }
    assert pw[..|pw|] == pw;
    ok := hasLower && hasUpper && hasDigit;
  }

  /** The three classes are the letters and digits of ASCII, by their codes. */
  lemma ClassesByCode(c: char)
    ensures IsLower(c) <==> 97 <= c as int <= 122
    ensures IsUpper(c) <==> 65 <= c as int <= 90
    ensures IsDigit(c) <==> 48 <= c as int <= 57
  {
  }

  /** A random number below the size of the alphabet. */
  type Draw = d: nat | d < ALPHABET_SIZE

  // ---- the shuffle ----

  function Swap<T>(s: seq<T>, i: nat, j: nat): (r: seq<T>)
    requires i < |s| && j < |s|
    ensures |r| == |s| && multiset(r) == multiset(s)
  {
    s[i := s[j]][j := s[i]]
  }

  /** Swaps position i with one at or below it, then i - 1, and so on down to 1. */
  function Shuffle(s: string, i: nat, draws: seq<Draw>): (r: string)
    requires i < |s| && |draws| == i
    ensures |r| == |s| && multiset(r) == multiset(s)
    decreases i
  {
    if i == 0 then s else Shuffle(Swap(s, i, draws[0] % (i + 1)), i - 1, draws[1..])
  }

  lemma PrefixWithoutLast(s: string, i: nat)
    requires i < |s|
    ensures multiset(s[..i]) == multiset(s[..i + 1]) - multiset{s[i]}
  {
    assert s[..i + 1] == s[..i] + [s[i]];
  }

  lemma SwapInPrefix(s: string, i: nat, j: nat)
    requires j <= i < |s|
    ensures Swap(s, i, j)[..i + 1] == Swap(s[..i + 1], i, j) && Swap(s, i, j)[i + 1..] == s[i + 1..]
    ensures Swap(s, i, j)[i] == s[j]
  {
  }

  lemma SwapIntoPlace(s: string, w: string, i: nat, j: nat)
    requires |s| == |w| && j <= i < |s| && s[j] == w[i]
    requires multiset(s[..i + 1]) == multiset(w[..i + 1])
    ensures multiset(Swap(s, i, j)[..i]) == multiset(w[..i])
    ensures Swap(s, i, j)[i] == w[i] && Swap(s, i, j)[i + 1..] == s[i + 1..]
  {
    hide Swap;
    SwapInPrefix(s, i, j);
    PrefixWithoutLast(Swap(s, i, j), i);
    PrefixWithoutLast(w, i);
  }

  lemma FindInPrefix(s: string, w: string, i: nat) returns (j: nat)
    requires |s| == |w| && i < |s| && multiset(s[..i + 1]) == multiset(w[..i + 1])
    ensures j <= i && s[j] == w[i]
  {
    var a, b := s[..i + 1], w[..i + 1];
    assert b[i] in multiset(b);
    assert b[i] in a;
    j :| j <= i && a[j] == b[i];
  }

  lemma ShuffleStep(s: string, i: nat, j: Draw, rest: seq<Draw>)
    requires 0 < i < |s| && j <= i && |rest| == i - 1
    ensures Shuffle(s, i, [j] + rest) == Shuffle(Swap(s, i, j), i - 1, rest)
  {
    assert ([j] + rest)[1..] == rest && j % (i + 1) == j;
  }

  /** The shuffle can bring about every arrangement of the characters. */
  lemma {:induction false} ShuffleReaches(s: string, w: string, i: nat) returns (draws: seq<Draw>)
    requires |s| == |w| && i < |s| && i < ALPHABET_SIZE
    requires s[i + 1..] == w[i + 1..] && multiset(s[..i + 1]) == multiset(w[..i + 1])
    ensures |draws| == i && Shuffle(s, i, draws) == w
    decreases i
  {
    hide Swap, Shuffle;
    var j := FindInPrefix(s, w, i);
    if i == 0 {
      draws := [];
      NoShuffle(s, w);
    } else {
      SwapIntoPlace(s, w, i, j);
      var next := Swap(s, i, j);
      assert next[i..] == [next[i]] + next[i + 1..] && w[i..] == [w[i]] + w[i + 1..];
      var rest := ShuffleReaches(next, w, i - 1);
      draws := [j] + rest;
      ShuffleStep(s, i, j, rest);
    }
  }

  lemma NoShuffle(s: string, w: string)
    requires |s| == |w| > 0 && s[0] == w[0] && s[1..] == w[1..]
    ensures Shuffle(s, 0, []) == w
  {
    assert s == [s[0]] + s[1..] && w == [w[0]] + w[1..];
  }

  // ---- the generator ----

  lemma AlphabetLayout()
    ensures |Alphabet()| == ALPHABET_SIZE
    ensures Alphabet()[48] == Placed()[0] && Alphabet()[0] == Placed()[1] && Alphabet()[24] == Placed()[2]
  {
  }

  /** The characters the free draws pick. */
  function Tail(draws: seq<Draw>): (tail: string)
    ensures |tail| == |draws|
  {
    AlphabetLayout();
    if draws == [] then "" else [Alphabet()[draws[0]]] + Tail(draws[1..])
  }

  lemma {:induction false} TailAt(draws: seq<Draw>, k: nat)
    requires k < |draws|
    ensures draws[k] < |Alphabet()| && Tail(draws)[k] == Alphabet()[draws[k]]
  {
    AlphabetLayout();
    if k > 0 {
      TailAt(draws[1..], k - 1);
    }
  }

  function Unshuffled(draws: seq<Draw>): (pw: string)
    requires |draws| == FREE + SWAPS
    ensures |pw| == LENGTH
  {
    Placed() + Tail(draws[..FREE])
  }

  function Password(draws: seq<Draw>): (pw: string)
    requires |draws| == FREE + SWAPS
  {
    Shuffle(Unshuffled(draws), SWAPS, draws[FREE..])
  }

  lemma UnshuffledAt(draws: seq<Draw>, i: nat)
    requires |draws| == FREE + SWAPS && 3 <= i < LENGTH
    ensures draws[i - 3] < |Alphabet()| && Unshuffled(draws)[i] == Alphabet()[draws[i - 3]]
  {
    TailAt(draws[..FREE], i - 3);
  }

  lemma UnshuffledStart(draws: seq<Draw>)
    requires |draws| == FREE + SWAPS
    ensures forall i :: 0 <= i < 3 ==> Unshuffled(draws)[i] == Placed()[i]
  {
  }

  method Fill(buffer: array<char>, draws: seq<Draw>)
    requires buffer.Length == LENGTH && |draws| == FREE + SWAPS
    modifies buffer
    ensures buffer[..] == Unshuffled(draws)
  {
    AlphabetLayout();
    UnshuffledStart(draws);
    hide Alphabet, Placed, Unshuffled;
    buffer[0] := Alphabet()[48];
    buffer[1] := Alphabet()[0];
    buffer[2] := Alphabet()[24];
    for i := 3 to LENGTH
      invariant forall k :: 0 <= k < i ==> buffer[k] == Unshuffled(draws)[k]
    {
      UnshuffledAt(draws, i);
      buffer[i] := Alphabet()[draws[i - 3]];
    }
  }

  lemma ShuffleUnfolds(s: string, i: nat, draws: seq<Draw>)
    requires 0 < i < |s| && |draws| == i
    ensures Shuffle(s, i, draws) == Shuffle(Swap(s, i, draws[0] % (i + 1)), i - 1, draws[1..])
  {
  }

  lemma ShuffleEnds(s: string)
    requires s != ""
    ensures Shuffle(s, 0, []) == s
  {
  }

  /** Swaps in place, from the end of the buffer to its second position. */
  method ShuffleInPlace(buffer: array<char>, draws: seq<Draw>)
    requires buffer.Length == |draws| + 1
    modifies buffer
    ensures buffer[..] == Shuffle(old(buffer[..]), |draws|, draws)
  {
    hide Shuffle, Swap;
    var n := |draws|;
    var i := n;
    assert draws[0..] == draws;
    while i > 0
      invariant 0 <= i <= n
      invariant Shuffle(buffer[..], i, draws[n - i..]) == Shuffle(old(buffer[..]), n, draws)
    {
      var j := draws[n - i] % (i + 1);
      ShuffleUnfolds(buffer[..], i, draws[n - i..]);
      assert draws[n - i..][1..] == draws[n - (i - 1)..];
      ghost var before := buffer[..];
      buffer[i], buffer[j] := buffer[j], buffer[i];
      SwappedInPlace(before, buffer[..], i, j);
      i := i - 1;
    }
    assert draws[n..] == [];
    ShuffleEnds(buffer[..]);
  }

  lemma SwappedInPlace(before: string, after: string, i: nat, j: nat)
    requires |after| == |before| && i < |before| && j < |before| && after == before[i := before[j]][j := before[i]]
    ensures after == Swap(before, i, j)
  {
  }

  method GenerateTemporaryPassword(draws: seq<Draw>) returns (pw: string)
    requires |draws| == FREE + SWAPS
    ensures pw == Password(draws)
  {
    hide Shuffle, Unshuffled;
    var buffer := new char[LENGTH];
    Fill(buffer, draws);
    ShuffleInPlace(buffer, draws[FREE..]);
    pw := buffer[..];
  }

  lemma TailInAlphabet(draws: seq<Draw>, c: char)
    requires c in Tail(draws)
    ensures c in Alphabet()
  {
    var k :| 0 <= k < |Tail(draws)| && Tail(draws)[k] == c;
    TailAt(draws, k);
  }

  lemma PlacedInAlphabet(c: char)
    requires c in Placed()
    ensures c in Alphabet() && (c == '2' || c == 'a' || c == 'A')
  {
    AlphabetLayout();
    hide Alphabet;
    assert Alphabet()[0] in Alphabet() && Alphabet()[24] in Alphabet() && Alphabet()[48] in Alphabet();
  }

  /** What the passwords are: as long as they should be, of the alphabet, and with the three
      characters placed first in them. */
  predicate Possible(pw: string) {
    |pw| == LENGTH && (forall c :: c in pw ==> c in Alphabet()) && forall c :: c in Placed() ==> c in pw
  }

  lemma PasswordsArePossible(draws: seq<Draw>)
    requires |draws| == FREE + SWAPS
    ensures Possible(Password(draws))
  {
    hide Alphabet, Placed, Tail;
    var tail, start, pw := Tail(draws[..FREE]), Unshuffled(draws), Password(draws);
    SameCharacters(pw, start);
    forall c | c in start
      ensures c in Alphabet()
    {
      if c in tail {
        TailInAlphabet(draws[..FREE], c);
      } else {
        PlacedInAlphabet(c);
      }
    }
  }

  /** Whatever is drawn, the password mixes the three classes. */
  lemma PossibleMixesClasses(pw: string)
    requires Possible(pw)
    ensures MixesClasses(pw)
  {
    hide Alphabet;
    assert Placed()[0] == '2' && Placed()[1] == 'a' && Placed()[2] == 'A';
    assert '2' in pw && 'a' in pw && 'A' in pw;
    assert IsDigit('2') && IsLower('a') && IsUpper('A');
  }

  /** A draw for each character. */
  lemma {:induction false} DrawsFor(tail: string) returns (draws: seq<Draw>)
    requires forall c :: c in tail ==> c in Alphabet()
    ensures |draws| == |tail| && Tail(draws) == tail
  {
    AlphabetLayout();
    hide Alphabet;
    if tail == "" {
      draws := [];
    } else {
      var rest := DrawsFor(tail[1..]);
      assert tail[0] in Alphabet();
      var d: nat :| d < |Alphabet()| && Alphabet()[d] == tail[0];
      draws := [d] + rest;
      assert draws[1..] == rest && tail == [tail[0]] + tail[1..];
    }
  }

  lemma TakeOut(s: string, c: char) returns (rest: string)
    requires c in s
    ensures multiset(s) == multiset(rest) + multiset{c}
  {
    var k :| 0 <= k < |s| && s[k] == c;
    rest := s[..k] + s[k + 1..];
    assert s == s[..k] + [c] + s[k + 1..];
  }

  /** Takes one occurrence of each of the characters out. */
  lemma {:induction false} Without(s: string, cs: string) returns (rest: string)
    requires multiset(cs) <= multiset(s)
    ensures multiset(s) == multiset(cs + rest)
    decreases |cs|
  {
    if cs == "" {
      rest := s;
      assert cs + rest == s;
    } else {
      var c, more := cs[0], cs[1..];
      assert cs == [c] + more;
      assert multiset(cs) == multiset(more) + multiset{c};
      assert c in multiset(s);
      var others := TakeOut(s, c);
      forall x
        ensures multiset(more)[x] <= multiset(others)[x]
      {
        assert multiset(cs)[x] <= multiset(s)[x];
      }
      rest := Without(others, more);
      assert multiset(cs + rest) == multiset(cs) + multiset(rest);
      assert multiset(more + rest) == multiset(more) + multiset(rest);
    }
  }

  lemma SameLength(s: string, t: string)
    requires multiset(s) == multiset(t)
    ensures |s| == |t|
  {
    assert |multiset(s)| == |s| && |multiset(t)| == |t|;
  }

  lemma DrawsOfPassword(pw: string) returns (draws: seq<Draw>)
    requires Possible(pw)
    ensures |draws| == FREE + SWAPS && Password(draws) == pw
  {
    hide Alphabet, Shuffle, Tail;
    PlacedOnce(pw);
    var tail := Without(pw, Placed());
    var start := Placed() + tail;
    SameLength(pw, start);
    SameCharacters(pw, start);
    assert forall c :: c in tail ==> c in start;
    var free := DrawsFor(tail);
    assert start[..SWAPS + 1] == start && pw[..SWAPS + 1] == pw && start[SWAPS + 1..] == pw[SWAPS + 1..];
    hide Placed, Possible;
    var swaps := ShuffleReaches(start, pw, SWAPS);
    draws := free + swaps;
    assert draws[..FREE] == free && draws[FREE..] == swaps;
  }

  lemma SameCharacters(s: string, t: string)
    requires multiset(s) == multiset(t)
    ensures forall c :: c in s <==> c in t
  {
    forall c
      ensures c in s <==> c in t
    {
      assert c in multiset(s) <==> c in multiset(t);
    }
  }

  lemma PlacedOnce(pw: string)
    requires Possible(pw)
    ensures multiset(Placed()) <= multiset(pw)
  {
    hide Alphabet;
    assert multiset(Placed()) == multiset{'2', 'a', 'A'};
    assert Placed()[0] == '2' && Placed()[1] == 'a' && Placed()[2] == 'A';
    assert '2' in pw && 'a' in pw && 'A' in pw;
  }

  /** And every such string can come out: the shuffle reaches every arrangement, so these are
      exactly the passwords there are, all of them with the same digit and letters in them. */
  lemma PasswordPossibleIff(pw: string)
    ensures (exists draws: seq<Draw> :: |draws| == FREE + SWAPS && Password(draws) == pw) <==> Possible(pw)
  {
    if draws: seq<Draw> :| |draws| == FREE + SWAPS && Password(draws) == pw {
      PasswordsArePossible(draws);
    }
    if Possible(pw) {
      var draws := DrawsOfPassword(pw);
    }
  }
}
