/** Object keys: how they are checked, and where the local driver keeps the objects they name.
    Characters stand for the bytes of a key. */
module StorageKeys {
  import opened Text

  const MAX_KEY_LENGTH := 512

  // ---- splitting ----

  /** The same pieces with `t` added to the last one. */
  function AppendLast(parts: seq<string>, t: string): seq<string>
    requires parts != []
  {
    parts[..|parts| - 1] + [parts[|parts| - 1] + t]
  }

  lemma AppendLastBehind(x: string, parts: seq<string>, t: string)
    requires parts != []
    ensures AppendLast([x] + parts, t) == [x] + AppendLast(parts, t)
  {
    assert ([x] + parts)[..|parts|] == [x] + parts[..|parts| - 1];
  }

  lemma {:induction false} SplitAppend(s: string, t: string, c: char)
    requires c !in t
    ensures Split(s + t, c) == AppendLast(Split(s, c), t)
  {
    if s == "" {
      assert s + t == t;
      SplitWhole(t, c);
    } else {
      assert (s + t)[1..] == s[1..] + t;
      SplitAppend(s[1..], t, c);
      var rest := Split(s[1..], c);
      if s[0] == c {
        AppendLastBehind("", rest, t);
      } else {
        FirstPieceGrows([s[0]], rest, t);
      }
    }
  }

  lemma FirstPieceGrows(a: string, rest: seq<string>, t: string)
    requires rest != []
    ensures var more := AppendLast(rest, t);
      AppendLast([a + rest[0]] + rest[1..], t) == [a + more[0]] + more[1..]
  {
    if |rest| == 1 {
      assert a + (rest[0] + t) == (a + rest[0]) + t;
    } else {
      assert rest == [rest[0]] + rest[1..];
      AppendLastBehind(rest[0], rest[1..], t);
      AppendLastBehind(a + rest[0], rest[1..], t);
    }
  }

  lemma {:induction false} SplitAppendSeparator(s: string, c: char)
    ensures Split(s + [c], c) == Split(s, c) + [""]
  {
    if s == "" {
      assert (s + [c])[1..] == "";
    } else {
      assert (s + [c])[1..] == s[1..] + [c];
      SplitAppendSeparator(s[1..], c);
    }
  }

  /** Cuts a key at its slashes in one pass, remembering where the current segment starts. */
  method SplitPath(key: string) returns (parts: seq<string>)
    ensures parts == Split(key, '/')
  {
    parts := [];
    var start := 0;
    for i := 0 to |key|
      invariant 0 <= start <= i
      invariant '/' !in key[start..i]
      invariant parts + [key[start..i]] == Split(key[..i], '/')
    {
      assert key[..i + 1] == key[..i] + [key[i]];
      if key[i] == '/' {
        SplitAppendSeparator(key[..i], '/');
        parts := parts + [key[start..i]];
        start := i + 1;
        assert key[start..i + 1] == "";
      } else {
        SplitAppend(key[..i], [key[i]], '/');
        assert key[start..i + 1] == key[start..i] + [key[i]];
      }
    }
    assert key[..|key|] == key && key[start..|key|] == key[start..];
    parts := parts + [key[start..]];
  }

  // ---- the rule for keys ----

  /** A segment that names something, rather than standing for here or above. */
  predicate IsName(segment: string) {
    segment != "" && segment != "." && segment != ".."
  }

  predicate ValidKey(key: string) {
    key != "" && |key| <= MAX_KEY_LENGTH && forall p :: p in Split(key, '/') ==> IsName(p)
  }

  method ValidateKey(key: string) returns (ok: bool)
    ensures ok <==> ValidKey(key)
  {
    if key == "" || |key| > MAX_KEY_LENGTH {
      return false;
    }
    if key[0] == '/' {
      LeadingSlashGivesEmptySegment(key);
      return false;
    }
    var parts := SplitPath(key);
    for i := 0 to |parts|
      invariant forall p :: p in parts[..i] ==> IsName(p)
    {
      assert parts[..i + 1] == parts[..i] + [parts[i]];
      assert parts[i] in parts;
      if parts[i] == "" || parts[i] == "." || parts[i] == ".." {
        return false;
      }
    }
    assert parts[..|parts|] == parts;
    ok := true;
  }

  /** The test for a leading slash never rejects what the test of the segments would accept. */
  lemma LeadingSlashGivesEmptySegment(key: string)
    requires key != "" && key[0] == '/'
    ensures Split(key, '/')[0] == "" && !ValidKey(key)
  {
    assert Split(key, '/')[0] in Split(key, '/');
  }

  /** The valid keys are the slash-joined lists of names, within the length. */
  lemma ValidKeyIff(key: string)
    ensures ValidKey(key) <==>
      |key| <= MAX_KEY_LENGTH && exists parts: seq<string> ::
        |parts| >= 1 && (forall p :: p in parts ==> IsName(p) && '/' !in p) && key == Join(parts, '/')
  {
    if ValidKey(key) {
      JoinSplit(key, '/');
      var parts := Split(key, '/');
      assert |parts| >= 1 && (forall p :: p in parts ==> IsName(p) && '/' !in p) && key == Join(parts, '/');
    }
    if parts: seq<string> :|
      |parts| >= 1 && (forall p :: p in parts ==> IsName(p) && '/' !in p) && key == Join(parts, '/')
    {
      SplitJoin(parts, '/');
      assert parts[0] in parts;
    }
  }

  // ---- lexical cleaning of paths ----

  /** The segments left when `segments` are walked from `base`: nothing for an empty one or a dot,
      one step back for two dots. A rooted path does not go above its root. */
  function Walk(rooted: bool, base: seq<string>, segments: seq<string>): seq<string>
    decreases |segments|
  {
    if segments == [] then base
    else Walk(rooted, Take(rooted, base, segments[0]), segments[1..])
  }

  function Take(rooted: bool, base: seq<string>, s: string): seq<string> {
    if s == "" || s == "." then base
    else if s != ".." then base + [s]
    else if base != [] && base[|base| - 1] != ".." then base[..|base| - 1]
    else if rooted then base
    else base + [s]
  }

  function Render(rooted: bool, segments: seq<string>): string {
    if segments == [] then (if rooted then "/" else ".")
    else (if rooted then "/" else "") + Join(segments, '/')
  }

  predicate Rooted(path: string) {
    path != "" && path[0] == '/'
  }

  function Segments(path: string): seq<string> {
    Walk(Rooted(path), [], Split(path, '/'))
  }

  /** The shortest path that names the same place lexically. */
  function Clean(path: string): string {
    Render(Rooted(path), Segments(path))
  }

  /** Names only, after some steps up if the path is not rooted. */
  predicate Normal(rooted: bool, segments: seq<string>) {
    && (forall s :: s in segments ==> s != "" && s != "." && '/' !in s)
    && forall i :: 0 <= i < |segments| && segments[i] == ".." ==>
         !rooted && forall j :: 0 <= j < i ==> segments[j] == ".."
  }

  lemma {:induction false} WalkIsNormal(rooted: bool, base: seq<string>, segments: seq<string>)
    requires Normal(rooted, base) && forall s :: s in segments ==> '/' !in s
    ensures Normal(rooted, Walk(rooted, base, segments))
    decreases |segments|
  {
    if segments != [] {
      TakeIsNormal(rooted, base, segments[0]);
      WalkIsNormal(rooted, Take(rooted, base, segments[0]), segments[1..]);
    }
  }

  lemma TakeIsNormal(rooted: bool, base: seq<string>, s: string)
    requires Normal(rooted, base) && '/' !in s
    ensures Normal(rooted, Take(rooted, base, s))
  {
    var next := Take(rooted, base, s);
    forall i, j | 0 <= j < i < |next| && next[i] == ".."
      ensures next[j] == ".."
    {
      if i == |base| {
        var last := |base| - 1;
        assert j < last ==> base[j] == "..";
      }
    }
  }

  /** Walking along segments that are already normal just appends them. */
  lemma {:induction false} WalkNormal(rooted: bool, base: seq<string>, segments: seq<string>)
    requires Normal(rooted, base + segments)
    ensures Walk(rooted, base, segments) == base + segments
    decreases |segments|
  {
    if segments == [] {
      assert base + segments == base;
    } else {
      var s := segments[0];
      var whole := base + segments;
      assert whole[|base|] == s && s in whole;
      assert base != [] ==> whole[|base| - 1] == base[|base| - 1];
      assert (base + [s]) + segments[1..] == whole;
      assert Take(rooted, base, s) == base + [s];
      WalkNormal(rooted, base + [s], segments[1..]);
    }
  }

  /** An empty first segment changes nothing. */
  lemma WalkFromRoot(rooted: bool, segments: seq<string>)
    ensures Walk(rooted, [], [""] + segments) == Walk(rooted, [], segments)
  {
    assert ([""] + segments)[1..] == segments;
  }

  lemma SegmentsOfBareRoot(rooted: bool)
    ensures Rooted(Render(rooted, [])) == rooted && Segments(Render(rooted, [])) == []
  {
    if rooted {
      assert "/" == "" + ['/'] + "";
      SplitAt("", "", '/');
      assert Split("/", '/') == [""] + [""] && [""] == [""] + [];
      WalkFromRoot(true, [""]);
      WalkFromRoot(true, []);
    } else {
      SplitWhole(".", '/');
      assert ["."][1..] == [];
    }
  }

  lemma NormalSegments(rooted: bool, segments: seq<string>)
    requires Normal(rooted, segments) && segments != []
    ensures segments[0] != "" && segments[0][0] != '/' && forall s :: s in segments ==> '/' !in s
  {
    assert segments[0] in segments && segments[0][0] in segments[0];
  }

  lemma SegmentsOfRendered(rooted: bool, segments: seq<string>)
    requires Normal(rooted, segments)
    ensures Rooted(Render(rooted, segments)) == rooted && Segments(Render(rooted, segments)) == segments
  {
    hide Walk, Normal, Split, Join;
    if segments == [] {
      SegmentsOfBareRoot(rooted);
    } else {
      assert [] + segments == segments;
      WalkNormal(rooted, [], segments);
      NormalSegments(rooted, segments);
      SplitJoin(segments, '/');
      JoinStartsWithFirst(segments);
      var body := Join(segments, '/');
      if rooted {
        assert Render(rooted, segments) == "" + ['/'] + body;
        SplitAt("", body, '/');
        WalkFromRoot(true, segments);
      } else {
        assert Render(rooted, segments) == body;
      }
    }
  }

  lemma JoinStartsWithFirst(segments: seq<string>)
    requires segments != [] && segments[0] != ""
    ensures Join(segments, '/') != "" && Join(segments, '/')[0] == segments[0][0]
  {
  }

  /** Cleaning a path twice is cleaning it once. */
  lemma CleanIdempotent(path: string)
    ensures Clean(Clean(path)) == Clean(path)
  {
    SegmentsAreNormal(path);
    SegmentsOfRendered(Rooted(path), Segments(path));
  }

  /** A valid key is left alone by cleaning. */
  lemma ValidKeyIsClean(key: string)
    requires ValidKey(key)
    ensures Clean(key) == key && !Rooted(key)
  {
    JoinSplit(key, '/');
    if Rooted(key) {
      LeadingSlashGivesEmptySegment(key);
    } else {
      var parts := Split(key, '/');
      assert [] + parts == parts;
      assert forall i :: 0 <= i < |parts| ==> parts[i] in parts;
      WalkNormal(false, [], parts);
    }
  }

  // ---- the local driver ----

  /** What `filepath.Abs` returns. */
  predicate CleanRoot(root: string) {
    Rooted(root) && Clean(root) == root
  }

  function HasPrefix(s: string, prefix: string): bool {
    |prefix| <= |s| && s[..|prefix|] == prefix
  }

  /** Joining paths cleans them; here neither part is empty. */
  function PathOf(root: string, key: string): string {
    Clean(root + "/" + key)
  }

  function Resolve(root: string, key: string): Option<string> {
    if !ValidKey(key) then None
    else
      var path := Clean(PathOf(root, key));
      if !HasPrefix(path, root + "/") then None else Some(path)
  }

  lemma {:induction false} WalkAppend(rooted: bool, base: seq<string>, a: seq<string>, b: seq<string>)
    ensures Walk(rooted, base, a + b) == Walk(rooted, Walk(rooted, base, a), b)
    decreases |a|
  {
    if a == [] {
      assert a + b == b;
    } else {
      assert (a + b)[1..] == a[1..] + b;
      WalkAppend(rooted, Take(rooted, base, a[0]), a[1..], b);
    }
  }

  lemma {:induction false} SplitBetween(a: string, b: string, c: char)
    ensures Split(a + [c] + b, c) == Split(a, c) + Split(b, c)
  {
    if a == "" {
      assert a + [c] + b == [c] + b && ([c] + b)[1..] == b;
    } else {
      assert (a + [c] + b)[1..] == a[1..] + [c] + b && (a + [c] + b)[0] == a[0];
      SplitBetween(a[1..], b, c);
    }
  }

  lemma {:induction false} JoinAppend(a: seq<string>, b: seq<string>, c: char)
    requires a != [] && b != []
    ensures Join(a + b, c) == Join(a, c) + [c] + Join(b, c)
  {
    if |a| == 1 {
      assert (a + b)[1..] == b;
    } else {
      assert (a + b)[1..] == a[1..] + b;
      JoinAppend(a[1..], b, c);
    }
  }

  lemma ValidKeyParts(key: string)
    requires ValidKey(key)
    ensures Split(key, '/') != [] && Join(Split(key, '/'), '/') == key
    ensures forall p :: p in Split(key, '/') ==> IsName(p) && '/' !in p
  {
    JoinSplit(key, '/');
  }

  lemma SegmentsAreNormal(path: string)
    ensures Normal(Rooted(path), Segments(path))
  {
    JoinSplit(path, '/');
    WalkIsNormal(Rooted(path), [], Split(path, '/'));
  }

  lemma SegmentsUnderRoot(root: string, key: string)
    requires Rooted(root) && ValidKey(key)
    ensures Segments(root + "/" + key) == Segments(root) + Split(key, '/')
  {
    hide Walk, Normal, Split, Join, ValidKey;
    var whole := root + "/" + key;
    assert whole == root + ['/'] + key && Rooted(whole);
    SplitBetween(root, key, '/');
    ValidKeyParts(key);
    SegmentsAreNormal(root);
    WalkAppend(true, [], Split(root, '/'), Split(key, '/'));
    NamesStayNormal(Segments(root), Split(key, '/'));
    WalkNormal(true, Segments(root), Split(key, '/'));
  }

  /** Under a clean root the object of a valid key lies at the root followed by the key itself. */
  lemma PathOfValidKey(root: string, key: string)
    requires CleanRoot(root) && ValidKey(key)
    ensures PathOf(root, key) == (if root == "/" then root + key else root + "/" + key)
    ensures Clean(PathOf(root, key)) == PathOf(root, key)
  {
    hide Walk, Normal, Split, Join, ValidKey, Segments;
    var top, parts := Segments(root), Split(key, '/');
    assert Rooted(root + "/" + key);
    SegmentsUnderRoot(root, key);
    ValidKeyParts(key);
    if top == [] {
      assert top + parts == parts;
    } else {
      SegmentsAreNormal(root);
      NormalSegments(true, top);
      JoinAppend(top, parts, '/');
      JoinStartsWithFirst(top);
    }
    CleanIdempotent(root + "/" + key);
  }

  lemma NamesStayNormal(top: seq<string>, parts: seq<string>)
    requires Normal(true, top) && forall p :: p in parts ==> IsName(p) && '/' !in p
    ensures Normal(true, top + parts)
  {
    var whole := top + parts;
    forall i | 0 <= i < |whole|
      ensures whole[i] != ".."
    {
      assert i < |top| ==> whole[i] == top[i];
      assert i >= |top| ==> whole[i] == parts[i - |top|] && parts[i - |top|] in parts;
    }
  }

  /** Resolving succeeds for every valid key and gives the root, a slash and the key, unless the
      root is the file system's: then the test for the prefix rejects every key. */
  lemma ResolveExactly(root: string, key: string)
    requires CleanRoot(root)
    ensures Resolve(root, key) == if ValidKey(key) && root != "/" then Some(root + "/" + key) else None
  {
    if ValidKey(key) {
      PathOfValidKey(root, key);
      var path := PathOf(root, key);
      if root == "/" {
        assert path == "/" + key;
        ValidKeyIsClean(key);
        assert path[1] == key[0] != '/';
        assert (root + "/")[1] == '/' && path[..2][1] == path[1];
      } else {
        assert path == (root + "/") + key;
      }
    }
  }

  /** Two keys never share a file, and no key names the root or anything outside it. */
  lemma ResolveInjective(root: string, a: string, b: string)
    requires CleanRoot(root) && Resolve(root, a).Some? && Resolve(root, b).Some?
    ensures Resolve(root, a) == Resolve(root, b) <==> a == b
    ensures HasPrefix(Resolve(root, a).value, root + "/") && |Resolve(root, a).value| > |root| + 1
  {
    ResolveExactly(root, a);
    ResolveExactly(root, b);
    assert (root + "/" + a)[|root| + 1..] == a && (root + "/" + b)[|root| + 1..] == b;
    assert (root + "/" + a)[..|root| + 1] == root + "/" && |a| > 0;
  }

  /** Deletion, which joins without resolving, removes the very file that resolving names. */
  lemma DeletionRemovesTheResolved(root: string, key: string)
    requires CleanRoot(root) && root != "/" && ValidKey(key)
    ensures Resolve(root, key) == Some(PathOf(root, key))
  {
    PathOfValidKey(root, key);
    ResolveExactly(root, key);
  }

  // ---- signed requests ----

  /** The text that is signed for a request. */
  function Payload(httpMethod: string, key: string, expires: int): string {
    Itoa(expires) + "|" + httpMethod + "|" + key
  }

  lemma BarSplits(a: string, b: string, c: string, d: string)
    requires '|' !in a && '|' !in c && a + ['|'] + b == c + ['|'] + d
    ensures a == c && b == d
  {
    IndexOfFirst(a, b, '|');
    IndexOfFirst(c, d, '|');
    assert (a + ['|'] + b)[..|a|] == a && (c + ['|'] + d)[..|c|] == c;
    assert (a + ['|'] + b)[|a| + 1..] == b && (c + ['|'] + d)[|c| + 1..] == d;
  }

  lemma BarsSplit(a: string, m: string, k: string, a2: string, m2: string, k2: string)
    requires '|' !in a && '|' !in a2 && '|' !in m && '|' !in m2
    requires a + "|" + m + "|" + k == a2 + "|" + m2 + "|" + k2
    ensures a == a2 && m == m2 && k == k2
  {
    assert a + "|" + m + "|" + k == a + ['|'] + (m + ['|'] + k);
    assert a2 + "|" + m2 + "|" + k2 == a2 + ['|'] + (m2 + ['|'] + k2);
    BarSplits(a, m + ['|'] + k, a2, m2 + ['|'] + k2);
    BarSplits(m, k, m2, k2);
  }

  /** Requests with the same signed text are the same request, though keys may contain the bar. */
  lemma PayloadInjective(m: string, key: string, expires: int, m2: string, key2: string, expires2: int)
    requires '|' !in m && '|' !in m2
    ensures Payload(m, key, expires) == Payload(m2, key2, expires2) <==> m == m2 && key == key2 && expires == expires2
  {
    hide Itoa;
    if Payload(m, key, expires) == Payload(m2, key2, expires2) {
      NoBarInNumber(expires);
      NoBarInNumber(expires2);
      BarsSplit(Itoa(expires), m, key, Itoa(expires2), m2, key2);
      ItoaInjective(expires, expires2);
    }
  }

  lemma NoBarInNumber(n: int)
    ensures '|' !in Itoa(n)
  {
    var digits := NatToString(if n < 0 then -n else n);
    assert forall c :: c in digits ==> IsDigit(c);
  }
}
