/** What holds of cluster permissions over every run of creations, revocations and deletions. */
module GrantRuns {
  import opened ClusterRoles
  import opened ClusterGrants

  // ---- names ----

  /** The hash at the end of a user's name on the cluster. */
  function HashIn(name: string): string {
    if |name| < HASH_LENGTH then "" else name[|name| - HASH_LENGTH..]
  }

  lemma HashInUserName(subjectId: string, hash: string)
    requires |hash| == HASH_LENGTH
    ensures HashIn(UserName(subjectId, hash)) == hash
  {
    var name := UserName(subjectId, hash);
    assert name == (subjectId + "-") + hash;
  }

  /** Subject names and certificates of different hashes differ, whoever the users are. */
  lemma UserNamesDiffer(a: string, h: string, b: string, g: string)
    requires |h| == HASH_LENGTH && |g| == HASH_LENGTH
    ensures UserName(a, h) == UserName(b, g) <==> a == b && h == g
  {
    HashInUserName(a, h);
    HashInUserName(b, g);
    if UserName(a, h) == UserName(b, g) {
      assert UserName(a, h)[..|a|] == a && UserName(b, g)[..|b|] == b;
    }
  }

  lemma NamesDiffer(id: Id, other: Id)
    ensures CRBName(id) == CRBName(other) <==> id == other
    ensures RoleName(id) == RoleName(other) <==> id == other
  {
    assert CRBName(id)[..|CRBName(id)| - 5] == id && CRBName(other)[..|CRBName(other)| - 5] == other;
    assert RoleName(id)[..|RoleName(id)| - 5] == id && RoleName(other)[..|RoleName(other)| - 5] == other;
  }

  // ---- the invariant ----

  /** A user's binding names the user under some hash drawn; a group's names the group. */
  ghost predicate SubjectOf(w: World, g: Grant, s: Subject) {
    if g.ForUser() then exists h :: h in w.hashes && s == Subject(USER_KIND, UserName(g.subjectId, h))
    else s == Subject(GROUP_KIND, g.subjectName)
  }

  /** What is stored under a grant's names is the grant's, at its own place. */
  ghost predicate SoundGrant(w: World, id: Id, g: Grant) {
    && g.Valid()
    && (forall k: Key :: k in w.bindings && k.name == CRBName(id) ==>
         k == BindingKey(id, g) && w.bindings[k].role == RoleName(id)
         && |w.bindings[k].subjects| == 1 && SubjectOf(w, g, w.bindings[k].subjects[0]))
    && (forall k: Key :: k in w.roles && k.name == RoleName(id) ==> k == RoleKey(id, g) && w.roles[k] == g.Rules())
    && (id in w.rows ==> w.rows[id].grant == g.Stored())
  }

  ghost predicate SoundGrants(w: World) {
    && (forall id :: id in w.rows ==> id in w.granted)
    && forall id :: id in w.granted ==> SoundGrant(w, id, w.granted[id])
  }

  /** A certificate is named after some user and the hash it carries. */
  ghost predicate IsNamed(w: World, c: Certificate) {
    c.organization in w.hashes && exists subjectId :: c.commonName == UserName(subjectId, c.organization)
  }

  /** Every certificate carries its own hash, drawn for it alone. */
  ghost predicate SoundCertificates(w: World) {
    && (forall h :: h in w.hashes ==> |h| == HASH_LENGTH)
    && (forall c :: c in w.issued ==> IsNamed(w, c))
    && forall i, j :: 0 <= i < j < |w.issued| ==> w.issued[i].organization != w.issued[j].organization
  }

  ghost predicate Sound(w: World) {
    SoundGrants(w) && SoundCertificates(w)
  }

  /** The grant has its binding. */
  predicate IsBound(w: World, id: Id) {
    id in w.granted && BindingKey(id, w.granted[id]) in w.bindings
  }

  /** A certificate speaks for the user its common name gives. */
  predicate Authorizes(w: World, id: Id, c: Certificate) {
    && IsBound(w, id) && c.environment == w.granted[id].environment
    && Subject(USER_KIND, c.commonName) in w.bindings[BindingKey(id, w.granted[id])].subjects
  }

  /** What the invariant says of one grant. */
  lemma SoundGrantMeans(w: World, id: Id)
    requires SoundGrants(w) && id in w.granted
    ensures var g := w.granted[id];
      && (id in w.rows ==>
           var r := w.rows[id].grant;
           && BindingKey(id, r) == BindingKey(id, g) && RoleKey(id, r) == RoleKey(id, g) && RotationKey(id, r) == RotationKey(id, g)
           && r.ForUser() == g.ForUser() && r.subjectId == g.subjectId && r.environment == g.environment)
      && (RotationKey(id, g) == BindingKey(id, g) <==> g.clusterScoped)
      && (IsBound(w, id) ==>
           var b := w.bindings[BindingKey(id, g)];
           b.role == RoleName(id) && |b.subjects| == 1 && SubjectOf(w, g, b.subjects[0]))
      && (RotationKey(id, g) in w.bindings ==> RotationKey(id, g) == BindingKey(id, g) && g.clusterScoped)
      && (RoleKey(id, g) in w.roles ==> w.roles[RoleKey(id, g)] == g.Rules())
  {
    assert SoundGrant(w, id, w.granted[id]);
    hide CRBName, RoleName, Grant.Valid, Grant.Rules, SubjectOf;
  }

  lemma RowsAreGranted(w: World, id: Id)
    requires SoundGrants(w) && id in w.rows
    ensures id in w.granted
  {
  }

  // ---- runs ----

  datatype Op =
    | CreateOp(id: Id, grant: Grant, hash: string, create: CreateFaults)
    | RevokeOp(id: Id, hash: string, revoke: RevokeFaults)
    | DeleteOp(id: Id, delete: DeleteFaults)

  /** Identifiers and hashes are random, and taken to be new. */
  ghost predicate Enabled(w: World, op: Op) {
    match op
    case CreateOp(id, g, hash, f) => FreshId(w, id) && IsHash(hash) && hash !in w.hashes
    case RevokeOp(id, hash, f) => IsHash(hash) && hash !in w.hashes
    case DeleteOp(id, f) => true
  }

  function Step(w: World, op: Op): World {
    match op
    case CreateOp(id, g, hash, f) => Created(w, id, g, hash, f)
    case RevokeOp(id, hash, f) => AfterRevoke(w, id, hash, f)
    case DeleteOp(id, f) => AfterDelete(w, id, f)
  }

  ghost predicate EnabledRun(w: World, ops: seq<Op>)
    decreases |ops|
  {
    ops == [] || (Enabled(w, ops[0]) && EnabledRun(Step(w, ops[0]), ops[1..]))
  }

  function Run(w: World, ops: seq<Op>): World
    decreases |ops|
  {
    if ops == [] then w else Run(Step(w, ops[0]), ops[1..])
  }

  // ---- the invariant is kept ----

  /** Nothing under the names of grant `id` differs between the two worlds. */
  ghost predicate SameUnder(w: World, after: World, id: Id) {
    && (forall k: Key :: k.name == CRBName(id) ==>
         (k in after.bindings <==> k in w.bindings) && (k in w.bindings ==> after.bindings[k] == w.bindings[k]))
    && (forall k: Key :: k.name == RoleName(id) ==>
         (k in after.roles <==> k in w.roles) && (k in w.roles ==> after.roles[k] == w.roles[k]))
    && (id in after.rows <==> id in w.rows) && (id in w.rows ==> after.rows[id] == w.rows[id])
    && (id in after.granted <==> id in w.granted) && (id in w.granted ==> after.granted[id] == w.granted[id])
  }

  lemma UntouchedGrantIsSound(w: World, after: World, id: Id)
    requires SoundGrants(w) && SameUnder(w, after, id) && w.hashes <= after.hashes && id in w.granted
    ensures SoundGrant(after, id, w.granted[id])
  {
    assert SoundGrant(w, id, w.granted[id]);
    hide CRBName, RoleName, UserName, Grant.Valid, Grant.Rules;
  }

  lemma CreateTouchesOnlyItsOwn(w: World, id: Id, g: Grant, hash: string, f: CreateFaults, other: Id)
    requires other != id
    ensures SameUnder(w, Created(w, id, g, hash, f), other)
  {
    NamesDiffer(id, other);
  }

  lemma RevokeTouchesOnlyItsOwn(w: World, id: Id, hash: string, f: RevokeFaults, other: Id)
    requires other != id
    ensures SameUnder(w, AfterRevoke(w, id, hash, f), other)
  {
    NamesDiffer(id, other);
    hide RevokeVerdict, Rotatable, UserName;
  }

  lemma DeleteTouchesOnlyItsOwn(w: World, id: Id, f: DeleteFaults, other: Id)
    requires other != id
    ensures SameUnder(w, AfterDelete(w, id, f), other)
  {
    NamesDiffer(id, other);
  }

  lemma CreatedGrantIsSound(w: World, id: Id, g: Grant, hash: string, f: CreateFaults)
    requires FreshId(w, id) && IsHash(hash) && CreateBegins(g, f)
    ensures SoundGrant(Created(w, id, g, hash, f), id, g)
  {
    hide UserName, Grant.Rules;
  }

  lemma CreateKeepsGrants(w: World, id: Id, g: Grant, hash: string, f: CreateFaults)
    requires SoundGrants(w) && FreshId(w, id) && IsHash(hash) && CreateBegins(g, f)
    ensures SoundGrants(Created(w, id, g, hash, f))
  {
    var after := Created(w, id, g, hash, f);
    CreatedGrantIsSound(w, id, g, hash, f);
    assert (forall other :: other in after.rows ==> other in after.granted) && w.hashes <= after.hashes
      && after.granted == w.granted[id := g];
    hide Created, SoundGrant, FreshId, CreateBegins;
    forall other | other in after.granted
      ensures SoundGrant(after, other, after.granted[other])
    {
      if other != id {
        CreateTouchesOnlyItsOwn(w, id, g, hash, f, other);
        UntouchedGrantIsSound(w, after, other);
      }
    }
  }

  lemma ReissuedGrantIsSound(w: World, id: Id, hash: string, f: RevokeFaults)
    requires SoundGrants(w) && IsHash(hash) && Reissues(w, id, f)
    ensures SoundGrant(AfterReissue(w, id, hash, f), id, w.granted[id])
  {
    var g := w.granted[id];
    assert SoundGrant(w, id, g);
    hide UserName, CRBName, RoleName, Grant.Valid, Grant.Rules;
  }

  lemma ReissueKeepsGrants(w: World, id: Id, hash: string, f: RevokeFaults)
    requires SoundGrants(w) && IsHash(hash) && Reissues(w, id, f)
    ensures SoundGrants(AfterReissue(w, id, hash, f))
  {
    var after := AfterReissue(w, id, hash, f);
    ReissuedGrantIsSound(w, id, hash, f);
    assert (forall other :: other in after.rows ==> other in after.granted) && w.hashes <= after.hashes
      && after.granted == w.granted;
    assert AfterRevoke(w, id, hash, f) == after;
    hide AfterRevoke, AfterReissue, SoundGrant, Reissues;
    forall other | other in after.granted
      ensures SoundGrant(after, other, after.granted[other])
    {
      if other != id {
        RevokeTouchesOnlyItsOwn(w, id, hash, f, other);
        UntouchedGrantIsSound(w, after, other);
      }
    }
  }

  lemma RemovalKeepsGrants(w: World, after: World)
    requires SoundGrants(w) && after.granted == w.granted && after.hashes == w.hashes
    requires forall k :: k in after.bindings ==> k in w.bindings && after.bindings[k] == w.bindings[k]
    requires forall k :: k in after.roles ==> k in w.roles && after.roles[k] == w.roles[k]
    requires forall id :: id in after.rows ==> id in w.rows && after.rows[id].grant == w.rows[id].grant
    ensures SoundGrants(after)
  {
    forall id | id in after.granted
      ensures SoundGrant(after, id, after.granted[id])
    {
      assert SoundGrant(w, id, w.granted[id]);
    }
  }

  lemma StepKeepsGrants(w: World, op: Op)
    requires SoundGrants(w) && Enabled(w, op)
    ensures SoundGrants(Step(w, op))
  {
    hide SoundGrant, CRBName, RoleName, UserName, RoleTemplate, Grant.Valid;
    match op {
      case CreateOp(id, g, hash, f) =>
        if CreateBegins(g, f) {
          CreateKeepsGrants(w, id, g, hash, f);
        }
      case RevokeOp(id, hash, f) =>
        if Reissues(w, id, f) {
          ReissueKeepsGrants(w, id, hash, f);
        } else {
          RemovalKeepsGrants(w, AfterRevoke(w, id, hash, f));
        }
      case DeleteOp(id, f) =>
        RemovalKeepsGrants(w, AfterDelete(w, id, f));
    }
  }

  lemma SigningKeepsCertificates(w: World, after: World, c: Certificate)
    requires SoundCertificates(w)
    requires |c.organization| == HASH_LENGTH && c.organization !in w.hashes && IsNamed(after, c)
    requires after.hashes == w.hashes + {c.organization}
    requires after.issued == w.issued || after.issued == w.issued + [c]
    ensures SoundCertificates(after) && w.issued <= after.issued
  {
    hide UserName;
    assert forall i :: 0 <= i < |w.issued| ==> w.issued[i] in w.issued && IsNamed(w, w.issued[i]);
  }

  lemma StepKeepsCertificates(w: World, op: Op)
    requires SoundCertificates(w) && Enabled(w, op)
    ensures SoundCertificates(Step(w, op)) && w.issued <= Step(w, op).issued
  {
    var after := Step(w, op);
    hide SoundCertificates, FreshId, UserName;
    if after.hashes == w.hashes {
      UnsignedKeepsCertificates(w, after);
    } else if op.CreateOp? {
      SigningKeepsCertificates(w, after, CertificateOf(op.grant, op.hash));
    } else {
      SigningKeepsCertificates(w, after, CertificateOf(w.rows[op.id].grant, op.hash));
    }
  }

  lemma UnsignedKeepsCertificates(w: World, after: World)
    requires SoundCertificates(w) && after.hashes == w.hashes && after.issued == w.issued
    ensures SoundCertificates(after)
  {
  }

  /** Every run keeps the invariant, and never unsigns a certificate. */
  lemma {:induction false} RunStaysSound(w: World, ops: seq<Op>)
    requires Sound(w) && EnabledRun(w, ops)
    ensures Sound(Run(w, ops)) && w.issued <= Run(w, ops).issued
    decreases |ops|
  {
    if ops != [] {
      StepKeepsGrants(w, ops[0]);
      StepKeepsCertificates(w, ops[0]);
      RunStaysSound(Step(w, ops[0]), ops[1..]);
    }
  }

  lemma StartIsSound(roles: map<Key, seq<Rule>>, bindings: map<Key, Binding>)
    ensures Sound(Start(roles, bindings))
  {
  }

  /** A world some run leads to, on clusters that may hold any objects of others. */
  ghost predicate Reachable(w: World) {
    exists roles, bindings, ops :: LeadsTo(roles, bindings, ops, w)
  }

  ghost predicate LeadsTo(roles: map<Key, seq<Rule>>, bindings: map<Key, Binding>, ops: seq<Op>, w: World) {
    EnabledRun(Start(roles, bindings), ops) && w == Run(Start(roles, bindings), ops)
  }

  /** Every reachable world is sound, so what is proved of sound worlds holds in all of them. */
  lemma ReachableIsSound(w: World)
    requires Reachable(w)
    ensures Sound(w)
  {
    hide Sound, EnabledRun, Run, Start;
    var roles, bindings, ops :| LeadsTo(roles, bindings, ops, w);
    StartIsSound(roles, bindings);
    RunStaysSound(Start(roles, bindings), ops);
  }

  lemma StepTouchesOnlyItsOwn(w: World, op: Op, other: Id)
    requires other != op.id
    ensures SameUnder(w, Step(w, op), other)
  {
    hide SameUnder;
    match op {
      case CreateOp(id, g, hash, f) => CreateTouchesOnlyItsOwn(w, id, g, hash, f, other);
      case RevokeOp(id, hash, f) => RevokeTouchesOnlyItsOwn(w, id, hash, f, other);
      case DeleteOp(id, f) => DeleteTouchesOnlyItsOwn(w, id, f, other);
    }
  }

  // ---- creation ----

  /** The failures that leave nothing behind: the call that failed had no effect, and each of the
      compensations that follow it had its own. Nothing compensates for the role itself. */
  predicate LeavesNothing(g: Grant, f: CreateFaults) {
    match CreateVerdict(g, f)
    case Granted => false
    case RoleFailed => f.applyRole == Lost
    case BindingFailed => f.applyBinding == Lost && f.deleteRole != Lost
    case InsertFailed => f.insertRow == Lost && f.deleteBinding != Lost && f.deleteRole != Lost
    case IssueFailed => f.deleteBinding != Lost && f.deleteRole != Lost && f.deleteRow != Lost
    case _ => true
  }

  /** A creation restores roles, bindings and rows exactly when it fails leaving nothing. */
  lemma CreateRestoresIff(w: World, id: Id, g: Grant, hash: string, f: CreateFaults)
    requires FreshId(w, id)
    ensures (Created(w, id, g, hash, f).(granted := w.granted, hashes := w.hashes, issued := w.issued) == w)
      <==> LeavesNothing(g, f)
  {
    var after := Created(w, id, g, hash, f);
    assert RoleKey(id, g) !in w.roles && BindingKey(id, g) !in w.bindings;
    assert RoleStays(g, f) <==> RoleKey(id, g) in after.roles;
    assert BindingStays(g, f) <==> BindingKey(id, g) in after.bindings;
    assert RowStays(g, f) <==> id in after.rows;
  }

  /** A binding gives its subject something only while the role it names is there. */
  predicate Effective(w: World, id: Id) {
    IsBound(w, id) && RoleKey(id, w.granted[id]) in w.roles
  }

  /** A creation that fails leaves a working permission only when the binding was in effect applied
      and both deletions were lost; losing one of the two does no harm. */
  lemma FailedCreateIsEffectiveIff(w: World, id: Id, g: Grant, hash: string, f: CreateFaults)
    requires FreshId(w, id) && CreateVerdict(g, f) != Granted
    ensures Effective(Created(w, id, g, hash, f), id) <==>
      match CreateVerdict(g, f)
      case BindingFailed => f.applyBinding == Late && f.deleteRole == Lost
      case InsertFailed => f.deleteBinding == Lost && f.deleteRole == Lost
      case IssueFailed => f.deleteBinding == Lost && f.deleteRole == Lost
      case _ => false
  {
    assert RoleKey(id, g) !in w.roles && BindingKey(id, g) !in w.bindings;
  }

  /** A creation that succeeds binds the role it created to the subject, which for a user is the
      one its certificate speaks for, and changes nothing else. */
  lemma CreatedPermissionWorks(w: World, id: Id, g: Grant, hash: string, f: CreateFaults)
    requires FreshId(w, id) && IsHash(hash) && CreateVerdict(g, f) == Granted
    ensures var after := Created(w, id, g, hash, f);
      && Effective(after, id) && after.roles[RoleKey(id, g)] == g.Rules()
      && after.bindings[BindingKey(id, g)].role == RoleKey(id, g).name
      && id in after.rows && after.rows[id].status == Active
      && (g.ForUser() ==>
           && |after.issued| == |w.issued| + 1 && Authorizes(after, id, after.issued[|w.issued|])
           && after.issued[|w.issued|].organization == after.rows[id].certHash)
      && (!g.ForUser() ==>
           after.issued == w.issued && after.bindings[BindingKey(id, g)].subjects == [Subject(GROUP_KIND, g.subjectName)])
      && forall other :: other != id ==> SameUnder(w, after, other)
  {
    var after := Created(w, id, g, hash, f);
    forall other | other != id
      ensures SameUnder(w, after, other)
    {
      CreateTouchesOnlyItsOwn(w, id, g, hash, f, other);
    }
  }

  // ---- certificate rotation ----

  /** What a step can do to a grant's binding: nothing, remove it, or put a new hash in it. */
  ghost predicate BindingMoves(w: World, after: World, op: Op, id: Id) {
    && id in w.granted && id in after.granted && after.granted[id] == w.granted[id]
    && var k := BindingKey(id, w.granted[id]);
       || k !in after.bindings
       || (k in w.bindings && after.bindings[k] == w.bindings[k])
       || (k in w.bindings && op.RevokeOp? && w.granted[id].ForUser()
           && after.bindings[k] == Binding(RoleName(id), [Subject(USER_KIND, UserName(w.granted[id].subjectId, op.hash))]))
  }

  lemma RotatedSubject(b: Binding, name: string)
    requires |b.subjects| == 1
    ensures Rotated(b, name) == Binding(b.role, [Subject(b.subjects[0].kind, name)])
  {
  }

  lemma RevokeMovesBinding(w: World, id: Id, hash: string, f: RevokeFaults)
    requires Sound(w) && id in w.granted
    ensures BindingMoves(w, AfterRevoke(w, id, hash, f), RevokeOp(id, hash, f), id)
    ensures Rotates(w, id, f) ==>
      && w.granted[id].clusterScoped && IsBound(w, id)
      && BindingKey(id, w.granted[id]) in AfterRevoke(w, id, hash, f).bindings
      && AfterRevoke(w, id, hash, f).bindings[BindingKey(id, w.granted[id])]
           == Binding(RoleName(id), [Subject(USER_KIND, UserName(w.granted[id].subjectId, hash))])
  {
    hide Rotated, SoundGrants, SoundCertificates, BindingKey, RoleKey, RotationKey, RoleName, UserName, RevokeVerdict, Grant.ForUser;
    SoundGrantMeans(w, id);
    if Rotates(w, id, f) {
      RotatedSubject(w.bindings[BindingKey(id, w.granted[id])], UserName(w.granted[id].subjectId, hash));
    }
  }

  lemma StepMovesBinding(w: World, op: Op, id: Id)
    requires Sound(w) && Enabled(w, op) && id in w.granted
    ensures BindingMoves(w, Step(w, op), op, id)
  {
    hide Sound, CRBName, RoleName, UserName;
    if op.id != id {
      StepTouchesOnlyItsOwn(w, op, id);
      hide Step, Enabled;
    } else if op.RevokeOp? {
      RevokeMovesBinding(w, id, op.hash, op.revoke);
      hide AfterRevoke;
    } else {
      hide DeleteVerdict;
    }
  }

  ghost predicate NoneAuthorized(w: World, id: Id, earlier: seq<Certificate>) {
    forall c :: c in earlier ==> !Authorizes(w, id, c)
  }

  lemma NewSubjectAuthorizesNone(w: World, after: World, id: Id, hash: string, earlier: seq<Certificate>)
    requires SoundCertificates(w) && earlier <= w.issued && IsHash(hash) && hash !in w.hashes && id in after.granted
    requires var g := after.granted[id];
      BindingKey(id, g) in after.bindings
      && after.bindings[BindingKey(id, g)] == Binding(RoleName(id), [Subject(USER_KIND, UserName(g.subjectId, hash))])
    ensures NoneAuthorized(after, id, earlier)
  {
    hide UserName, RoleName;
    forall c | c in earlier
      ensures !Authorizes(after, id, c)
    {
      assert c in w.issued && IsNamed(w, c);
      var subjectId :| c.commonName == UserName(subjectId, c.organization);
      UserNamesDiffer(subjectId, c.organization, after.granted[id].subjectId, hash);
    }
  }

  lemma StepAuthorizesNoneAgain(w: World, op: Op, id: Id, earlier: seq<Certificate>)
    requires Sound(w) && Enabled(w, op) && id in w.granted
    requires earlier <= w.issued && NoneAuthorized(w, id, earlier)
    ensures NoneAuthorized(Step(w, op), id, earlier)
  {
    hide Step, SoundGrants, SoundCertificates, RoleName, UserName, CRBName, FreshId;
    var after := Step(w, op);
    StepMovesBinding(w, op, id);
    var k := BindingKey(id, w.granted[id]);
    if k in after.bindings {
      if k in w.bindings && after.bindings[k] == w.bindings[k] {
        assert forall c :: c in earlier ==> !Authorizes(w, id, c);
      } else {
        NewSubjectAuthorizesNone(w, after, id, op.hash, earlier);
      }
    }
  }

  /** After a revocation that replaces the subject, even one that is then reported as failed, no
      certificate signed before it speaks for that permission again, whatever is done later. */
  lemma {:induction false} OldCertificatesStayDead(w: World, id: Id, earlier: seq<Certificate>, ops: seq<Op>)
    requires Sound(w) && EnabledRun(w, ops) && id in w.granted
    requires earlier <= w.issued && NoneAuthorized(w, id, earlier)
    ensures id in Run(w, ops).granted && NoneAuthorized(Run(w, ops), id, earlier)
    decreases |ops|
  {
    if ops != [] {
      StepAuthorizesNoneAgain(w, ops[0], id, earlier);
      StepMovesBinding(w, ops[0], id);
      StepKeepsGrants(w, ops[0]);
      StepKeepsCertificates(w, ops[0]);
      OldCertificatesStayDead(Step(w, ops[0]), id, earlier, ops[1..]);
    }
  }

  lemma RotatingIsReissuing(w: World, id: Id, hash: string, f: RevokeFaults)
    requires Rotates(w, id, f)
    ensures id in w.rows && AfterRevoke(w, id, hash, f).granted == w.granted
  {
  }

  lemma RotationKillsOldCertificates(w: World, id: Id, hash: string, f: RevokeFaults, ops: seq<Op>)
    requires Sound(w) && Enabled(w, RevokeOp(id, hash, f)) && Rotates(w, id, f)
    requires EnabledRun(AfterRevoke(w, id, hash, f), ops)
    ensures NoneAuthorized(Run(AfterRevoke(w, id, hash, f), ops), id, w.issued)
  {
    hide SoundGrants, SoundCertificates, AfterRevoke, Rotates, UserName, RoleName, CRBName, EnabledRun;
    var after := AfterRevoke(w, id, hash, f);
    var op := RevokeOp(id, hash, f);
    RotatingIsReissuing(w, id, hash, f);
    RowsAreGranted(w, id);
    RevokeMovesBinding(w, id, hash, f);
    StepKeepsGrants(w, op);
    StepKeepsCertificates(w, op);
    NewSubjectAuthorizesNone(w, after, id, hash, w.issued);
    OldCertificatesStayDead(after, id, w.issued, ops);
  }

  /** A revocation of a user's permission that succeeds leaves the binding's subject, the row's hash
      and the new certificate in agreement, in whatever state earlier failures left them. */
  lemma RevokedPermissionAgrees(w: World, id: Id, hash: string, f: RevokeFaults)
    requires Sound(w) && Enabled(w, RevokeOp(id, hash, f))
    requires RevokeVerdict(w, id, f) == RevokeDone && w.rows[id].grant.ForUser()
    ensures var after := AfterRevoke(w, id, hash, f);
      && after.rows == w.rows[id := w.rows[id].(certHash := hash)] && after.roles == w.roles
      && after.issued == w.issued + [CertificateOf(w.granted[id], hash)]
      && id in w.granted && after.bindings == w.bindings[BindingKey(id, w.granted[id]) := NewBinding(id, w.granted[id], hash)]
      && Authorizes(after, id, after.issued[|w.issued|]) && NoneAuthorized(after, id, w.issued)
  {
    hide SoundGrants, SoundCertificates, BindingKey, RoleKey, RotationKey, RoleName, UserName, Grant.ForUser, FreshId;
    RowsAreGranted(w, id);
    SoundGrantMeans(w, id);
    RevokeMovesBinding(w, id, hash, f);
    RotationKillsOldCertificates(w, id, hash, f, []);
  }

  /** A user's permission can be revoked exactly when it is cluster-wide and still bound: the
      rotation never finds the binding of a namespaced one. */
  lemma UserRevokeSucceedsIff(w: World, id: Id, f: RevokeFaults)
    requires Sound(w) && id in w.rows && w.rows[id].grant.ForUser() && w.rows[id].status == Active
    requires !f.get && !f.resolve && !f.hash && f.issue.Done? && f.rotate.Done? && f.updateRow.Done?
    ensures RevokeVerdict(w, id, f) == (if w.granted[id].clusterScoped && IsBound(w, id) then RevokeDone else RotateFailed)
  {
    hide SoundGrants, SoundCertificates, BindingKey, RoleKey, RotationKey, RoleName, UserName, Grant.ForUser;
    RowsAreGranted(w, id);
    SoundGrantMeans(w, id);
  }

  lemma CommonNamesDiffer(w: World, i: nat, j: nat)
    requires SoundCertificates(w) && i < |w.issued| && j < |w.issued|
    ensures w.issued[i].commonName == w.issued[j].commonName <==> i == j
  {
    hide UserName;
    assert IsNamed(w, w.issued[i]) && IsNamed(w, w.issued[j]);
    var a :| w.issued[i].commonName == UserName(a, w.issued[i].organization);
    var b :| w.issued[j].commonName == UserName(b, w.issued[j].organization);
    UserNamesDiffer(a, w.issued[i].organization, b, w.issued[j].organization);
  }

  /** Of all certificates ever signed, at most one speaks for a permission. */
  lemma OneCertificateAuthorizes(w: World, id: Id, i: nat, j: nat)
    requires Sound(w) && id in w.granted && i < |w.issued| && j < |w.issued|
    requires Authorizes(w, id, w.issued[i]) && Authorizes(w, id, w.issued[j])
    ensures i == j && w.granted[id].ForUser()
  {
    hide SoundGrants, SoundCertificates, BindingKey, RoleName, UserName, Grant.ForUser;
    SoundGrantMeans(w, id);
    CommonNamesDiffer(w, i, j);
  }

  const NO_CREATE_FAULTS := CreateFaults(false, false, Done, Done, Done, Done, Done, Done, Done)
  const NO_REVOKE_FAULTS := RevokeFaults(false, false, false, Done, Done, Done, Done, Done, Done)

  /** One revocation of `id` after the other, with no call failing. */
  function Revocations(id: Id, hashes: seq<string>): (ops: seq<Op>)
    ensures |ops| == |hashes| && forall i :: 0 <= i < |hashes| ==> ops[i] == RevokeOp(id, hashes[i], NO_REVOKE_FAULTS)
  {
    seq(|hashes|, i requires 0 <= i < |hashes| => RevokeOp(id, hashes[i], NO_REVOKE_FAULTS))
  }

  ghost predicate AllRevoke(w: World, id: Id, hashes: seq<string>)
    decreases |hashes|
  {
    hashes != [] ==>
      && RevokeVerdict(w, id, NO_REVOKE_FAULTS) == RevokeDone
      && AllRevoke(AfterRevoke(w, id, hashes[0], NO_REVOKE_FAULTS), id, hashes[1..])
  }

  /** A user's permission on the whole cluster, in force, whose one certificate carries `hash`. */
  ghost predicate InForce(w: World, id: Id, g: Grant, hash: string) {
    && Sound(w) && id in w.granted && w.granted[id] == g && g.ForUser() && g.clusterScoped
    && id in w.rows && w.rows[id].status == Active && IsBound(w, id)
    && forall c :: c in w.issued ==> (Authorizes(w, id, c) <==> c == CertificateOf(g, hash))
  }

  lemma OnlyThatOne(w: World, id: Id, i: nat)
    requires Sound(w) && id in w.granted && i < |w.issued| && Authorizes(w, id, w.issued[i])
    ensures forall c :: c in w.issued ==> (Authorizes(w, id, c) <==> c == w.issued[i])
  {
    hide Sound, Authorizes;
    forall c | c in w.issued && Authorizes(w, id, c)
      ensures c == w.issued[i]
    {
      var j :| 0 <= j < |w.issued| && w.issued[j] == c;
      OneCertificateAuthorizes(w, id, i, j);
    }
  }

  lemma RevocationKeepsInForce(w: World, id: Id, g: Grant, hash: string, newHash: string)
    requires InForce(w, id, g, hash) && Enabled(w, RevokeOp(id, newHash, NO_REVOKE_FAULTS))
    ensures RevokeVerdict(w, id, NO_REVOKE_FAULTS) == RevokeDone
    ensures InForce(AfterRevoke(w, id, newHash, NO_REVOKE_FAULTS), id, g, newHash)
  {
    hide SoundGrants, SoundCertificates, RevokeVerdict, AfterRevoke, BindingKey, RoleName, UserName, Authorizes;
    var f, op := NO_REVOKE_FAULTS, RevokeOp(id, newHash, NO_REVOKE_FAULTS);
    var v := AfterRevoke(w, id, newHash, f);
    SoundGrantMeans(w, id);
    UserRevokeSucceedsIff(w, id, f);
    RevokedPermissionAgrees(w, id, newHash, f);
    StepKeepsGrants(w, op);
    StepKeepsCertificates(w, op);
    RevokeKeepsGranted(w, id, newHash, f);
    OnlyThatOne(v, id, |w.issued|);
  }

  lemma RevokeKeepsGranted(w: World, id: Id, hash: string, f: RevokeFaults)
    ensures AfterRevoke(w, id, hash, f).granted == w.granted
  {
  }

  lemma {:induction false} RevocationsKeepInForce(w: World, id: Id, g: Grant, hash: string, hashes: seq<string>)
    requires InForce(w, id, g, hash) && EnabledRun(w, Revocations(id, hashes))
    ensures AllRevoke(w, id, hashes)
    ensures InForce(Run(w, Revocations(id, hashes)), id, g, if hashes == [] then hash else hashes[|hashes| - 1])
    decreases |hashes|
  {
    hide InForce, Enabled, RevokeVerdict, AfterRevoke;
    if hashes != [] {
      var ops := Revocations(id, hashes);
      assert ops[1..] == Revocations(id, hashes[1..]);
      RevocationKeepsInForce(w, id, g, hash, hashes[0]);
      RevocationsKeepInForce(Step(w, ops[0]), id, g, hashes[0], hashes[1..]);
    }
  }

  /** The life of a cluster-wide user permission when no call fails: its creation succeeds, every
      revocation after it succeeds, and of all certificates only the newest is authorized. */
  lemma FaultlessLife(w: World, id: Id, g: Grant, hash: string, hashes: seq<string>)
    requires Sound(w) && Enabled(w, CreateOp(id, g, hash, NO_CREATE_FAULTS)) && g.Valid() && g.ForUser() && g.clusterScoped
    requires EnabledRun(Created(w, id, g, hash, NO_CREATE_FAULTS), Revocations(id, hashes))
    ensures CreateVerdict(g, NO_CREATE_FAULTS) == Granted
    ensures var created := Created(w, id, g, hash, NO_CREATE_FAULTS);
      && AllRevoke(created, id, hashes)
      && InForce(Run(created, Revocations(id, hashes)), id, g, if hashes == [] then hash else hashes[|hashes| - 1])
  {
    hide SoundGrants, SoundCertificates, FreshId, BindingKey, RoleName, UserName, Grant.Valid, Authorizes, EnabledRun;
    var op, created := CreateOp(id, g, hash, NO_CREATE_FAULTS), Created(w, id, g, hash, NO_CREATE_FAULTS);
    StepKeepsGrants(w, op);
    StepKeepsCertificates(w, op);
    CreatedPermissionWorks(w, id, g, hash, NO_CREATE_FAULTS);
    OnlyThatOne(created, id, |w.issued|);
    assert created.issued[|w.issued|] == CertificateOf(g, hash);
    RevocationsKeepInForce(created, id, g, hash, hashes);
  }

  // ---- removal ----

  /** Revoking a group's or organization's permission unbinds it; when the status could not be
      stored, revoking again completes it; and once revoked it stays unchanged. */
  lemma GroupRevokeUnbinds(w: World, id: Id, hash: string, f: RevokeFaults)
    requires Sound(w) && id in w.rows && !w.rows[id].grant.ForUser() && w.rows[id].status == Active
    requires RevokeVerdict(w, id, f) in {RevokeDone, UpdateFailed}
    ensures var after := AfterRevoke(w, id, hash, f);
      && !IsBound(after, id) && id in after.rows
      && (RevokeVerdict(w, id, f) == RevokeDone ==>
           after.rows[id].status == Revoked && forall h, again :: AfterRevoke(after, id, h, again) == after)
      && (RevokeVerdict(w, id, f) == UpdateFailed && f.setStatus == Lost ==>
           forall again: RevokeFaults :: !again.get && !again.resolve && again.deleteBinding.Done? && again.setStatus.Done? ==>
             RevokeVerdict(after, id, again) == RevokeDone)
  {
    hide SoundGrants, SoundCertificates, BindingKey, RoleKey, RotationKey, RoleName, UserName, Grant.ForUser;
    RowsAreGranted(w, id);
    SoundGrantMeans(w, id);
  }

  /** A permission no longer bound is never bound again. */
  lemma {:induction false} UnboundStaysUnbound(w: World, id: Id, ops: seq<Op>)
    requires Sound(w) && EnabledRun(w, ops) && id in w.granted && !IsBound(w, id)
    ensures !IsBound(Run(w, ops), id)
    decreases |ops|
  {
    if ops != [] {
      StepMovesBinding(w, ops[0], id);
      StepKeepsGrants(w, ops[0]);
      StepKeepsCertificates(w, ops[0]);
      UnboundStaysUnbound(Step(w, ops[0]), id, ops[1..]);
    }
  }

  /** A deletion that succeeds leaves a permission working exactly when it worked and both cluster
      deletions were lost, which the deletion does not report. */
  lemma DeletedStaysEffectiveIff(w: World, id: Id, f: DeleteFaults)
    requires Sound(w) && DeleteVerdict(w, id, f) == Deleted
    ensures id !in AfterDelete(w, id, f).rows
    ensures Effective(AfterDelete(w, id, f), id) <==> Effective(w, id) && f.deleteBinding == Lost && f.deleteRole == Lost
  {
    hide SoundGrants, SoundCertificates, BindingKey, RoleKey, RotationKey, RoleName, UserName, Grant.ForUser;
    RowsAreGranted(w, id);
    SoundGrantMeans(w, id);
  }

  /** And then it works for ever: nothing the service does touches a permission that has no row. */
  lemma {:induction false} OrphanIsPermanent(w: World, id: Id, ops: seq<Op>)
    requires EnabledRun(w, ops) && id in w.granted && id !in w.rows
    ensures SameUnder(w, Run(w, ops), id)
    decreases |ops|
  {
    if ops != [] {
      OrphanStep(w, ops[0], id);
      OrphanIsPermanent(Step(w, ops[0]), id, ops[1..]);
    }
  }

  lemma OrphanStep(w: World, op: Op, id: Id)
    requires Enabled(w, op) && id in w.granted && id !in w.rows
    ensures SameUnder(w, Step(w, op), id)
  {
    if op.id != id {
      StepTouchesOnlyItsOwn(w, op, id);
      hide SameUnder, Step;
    } else {
      hide Created, FreshId;
    }
  }
}
