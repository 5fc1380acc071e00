/** What one creation, revocation or deletion of a cluster permission does, said of the objects, rows and
    certificates themselves and of the calls that were made. */
module GrantEffects {
  import opened ClusterRoles
  import opened ClusterGrants
  import opened GrantRuns

  /** The first check that fails decides. */
  function FirstFailure<T>(checks: seq<(bool, T)>, otherwise: T): T {
    if checks == [] then otherwise
    else if checks[0].0 then checks[0].1
    else FirstFailure(checks[1..], otherwise)
  }

  // ---- what is stored where ----

  function PlaceOf(g: Grant, name: string): Key {
    Key(g.environment, if g.clusterScoped then Cluster else Namespace(g.namespace), name)
  }

  /** A user is known to the cluster by an identifier and a hash, anyone else as a group. */
  function KnownAs(g: Grant, hash: string): Subject {
    if g.subjectKind == "user" then Subject("User", g.subjectId + "-" + hash) else Subject("Group", g.subjectName)
  }

  function Signed(g: Grant, hash: string): Certificate {
    Certificate(g.environment, g.subjectId + "-" + hash, hash)
  }

  /** The row of a new grant: resources and operations are kept for custom roles, the hash for users. */
  function RowOf(g: Grant, hash: string): Row {
    Row(Grant(g.environment, g.subjectKind, g.subjectId, g.subjectName, g.role, g.clusterScoped, g.namespace,
              if g.role == "custom" then g.resources else [], if g.role == "custom" then g.operations else []),
        if g.subjectKind == "user" then hash else "", Active)
  }

  /** What can be asked for. */
  predicate WellFormed(g: Grant) {
    && (g.subjectKind == "user" || g.subjectKind == "group" || g.subjectKind == "org")
    && (g.role == "admin" || g.role == "ops" || g.role == "dev" || g.role == "readonly"
        || (g.role == "custom" && |g.resources| > 0 && |g.operations| > 0))
    && (g.clusterScoped || |g.namespace| > 0)
    && (g.subjectKind == "user" || |g.subjectName| > 0)
  }

  lemma NamesOfParts(id: Id, g: Grant, hash: string)
    ensures g.ForUser() <==> g.subjectKind == "user"
    ensures g.Valid() <==> WellFormed(g)
    ensures RoleKey(id, g) == PlaceOf(g, id + "-role") && BindingKey(id, g) == PlaceOf(g, id + "-cert")
    ensures RotationKey(id, g) == Key(g.environment, Cluster, id + "-cert")
    ensures CertificateOf(g, hash) == Signed(g, hash)
    ensures NewBinding(id, g, hash) == Binding(id + "-role", [KnownAs(g, hash)])
    ensures g.Rules() == RoleTemplate(g.role, g.resources, g.operations)
    ensures NewRow(g, hash) == RowOf(g, hash)
  {
  }

  // ---- creation ----

  /** The checks and calls of a creation in their order, and what is reported when one fails. */
  lemma CreationOutcome(g: Grant, f: CreateFaults)
    ensures CreateVerdict(g, f) ==
      FirstFailure([(!WellFormed(g), InvalidGrant), (f.resolve, CreateNoCluster),
                    (g.subjectKind == "user" && f.hash, CreateNoHash), (f.applyRole != Done, RoleFailed),
                    (f.applyBinding != Done, BindingFailed), (f.insertRow != Done, InsertFailed),
                    (g.subjectKind == "user" && f.issue != Done, IssueFailed)], Granted)
  {
    NamesOfParts("", g, "");
    hide Grant.Valid, WellFormed;
    UpToSevenChecks([(!WellFormed(g), InvalidGrant), (f.resolve, CreateNoCluster),
                     (g.subjectKind == "user" && f.hash, CreateNoHash), (f.applyRole != Done, RoleFailed),
                     (f.applyBinding != Done, BindingFailed), (f.insertRow != Done, InsertFailed),
                     (g.subjectKind == "user" && f.issue != Done, IssueFailed)], Granted);
  }

  lemma FirstOf<T>(checks: seq<(bool, T)>, n: nat, otherwise: T)
    ensures n < |checks| ==>
      FirstFailure(checks[n..], otherwise) == if checks[n].0 then checks[n].1 else FirstFailure(checks[n + 1..], otherwise)
    ensures n == |checks| ==> FirstFailure(checks[n..], otherwise) == otherwise
  {
    if n < |checks| {
      assert checks[n..][1..] == checks[n + 1..];
    }
  }

  lemma UpToSevenChecks<T>(c: seq<(bool, T)>, o: T)
    requires |c| <= 7
    ensures FirstFailure(c, o) ==
      if |c| > 0 && c[0].0 then c[0].1 else if |c| > 1 && c[1].0 then c[1].1
      else if |c| > 2 && c[2].0 then c[2].1 else if |c| > 3 && c[3].0 then c[3].1
      else if |c| > 4 && c[4].0 then c[4].1 else if |c| > 5 && c[5].0 then c[5].1
      else if |c| > 6 && c[6].0 then c[6].1 else o
  {
    hide FirstFailure;
    assert c[0..] == c;
    FirstOf(c, 0, o);
    FirstOf(c, 1, o);
    FirstOf(c, 2, o);
    FirstOf(c, 3, o);
    FirstOf(c, 4, o);
    FirstOf(c, 5, o);
    FirstOf(c, 6, o);
    FirstOf(c, 7, o);
  }

  /** How many of the calls for role, binding, row and certificate were made. */
  function CallsMade(o: CreateOutcome): nat {
    match o
    case InvalidGrant => 0
    case CreateNoCluster => 0
    case CreateNoHash => 0
    case RoleFailed => 1
    case BindingFailed => 2
    case InsertFailed => 3
    case IssueFailed => 4
    case Granted => 4
  }

  /** Role, binding and row are there after a creation exactly when the call that applies them was made
      and had its effect, and no call that deletes them again did. The deletions are those of what was
      applied before a call that failed. */
  lemma StaysIff(g: Grant, f: CreateFaults)
    ensures var n, o := CallsMade(CreateVerdict(g, f)), CreateVerdict(g, f);
      var roleUndone := o in {BindingFailed, InsertFailed, IssueFailed} && f.deleteRole != Lost;
      var bindingUndone := o in {InsertFailed, IssueFailed} && f.deleteBinding != Lost;
      var rowUndone := o == IssueFailed && f.deleteRow != Lost;
      && (RoleStays(g, f) <==> n >= 1 && f.applyRole != Lost && !roleUndone)
      && (BindingStays(g, f) <==> n >= 2 && f.applyBinding != Lost && !bindingUndone)
      && (RowStays(g, f) <==> n >= 3 && f.insertRow != Lost && !rowUndone)
      && (Signs(g, f) <==> n >= 4 && g.ForUser() && f.issue != Lost)
  {
    hide Grant.Valid, Grant.ForUser;
  }

  lemma CreationLeaves(w: World, id: Id, g: Grant, hash: string, f: CreateFaults)
    ensures var after := Created(w, id, g, hash, f);
      && after.roles == (if RoleStays(g, f)
           then w.roles[PlaceOf(g, id + "-role") := RoleTemplate(g.role, g.resources, g.operations)] else w.roles)
      && after.bindings == (if BindingStays(g, f)
           then w.bindings[PlaceOf(g, id + "-cert") := Binding(id + "-role", [KnownAs(g, hash)])] else w.bindings)
      && after.rows == (if RowStays(g, f) then w.rows[id := RowOf(g, hash)] else w.rows)
      && after.issued == w.issued + (if Signs(g, f) then [Signed(g, hash)] else [])
  {
    NamesOfParts(id, g, hash);
    hide Grant.Valid, RoleKey, BindingKey, NewRow, NewBinding, CertificateOf, Grant.Rules, PlaceOf, KnownAs, Signed,
      RoleTemplate, WellFormed, RoleStays, BindingStays, RowStays, Signs, CreateBegins, Grant.ForUser, RowOf;
  }

  // ---- revocation ----

  /** A grant's binding as the rotation looks for it: on the whole cluster, with a subject. */
  predicate CanRotate(w: World, id: Id, g: Grant) {
    var k := Key(g.environment, Cluster, id + "-cert");
    k in w.bindings && |w.bindings[k].subjects| > 0
  }

  /** The checks and calls of a revocation in their order. */
  lemma RevocationOutcome(w: World, id: Id, f: RevokeFaults)
    ensures f.get || id !in w.rows ==> RevokeVerdict(w, id, f) == RevokeNotFound
    ensures !f.get && id in w.rows && w.rows[id].grant.subjectKind == "user" ==>
      RevokeVerdict(w, id, f) ==
        FirstFailure([(w.rows[id].status == Revoked, AlreadyRevoked), (f.resolve, RevokeNoCluster), (f.hash, RevokeNoHash),
                      (f.issue != Done, ReissueFailed),
                      (!CanRotate(w, id, w.rows[id].grant) || f.rotate != Done, RotateFailed),
                      (f.updateRow != Done, UpdateFailed)], RevokeDone)
    ensures !f.get && id in w.rows && w.rows[id].grant.subjectKind != "user" ==>
      RevokeVerdict(w, id, f) ==
        FirstFailure([(w.rows[id].status == Revoked, AlreadyRevoked), (f.resolve, RevokeNoCluster),
                      (f.deleteBinding != Done, UnbindFailed), (f.setStatus != Done, UpdateFailed)], RevokeDone)
  {
    if !f.get && id in w.rows {
      var b := w.rows[id];
      NamesOfParts(id, b.grant, "");
      UpToSevenChecks([(b.status == Revoked, AlreadyRevoked), (f.resolve, RevokeNoCluster), (f.hash, RevokeNoHash),
                       (f.issue != Done, ReissueFailed), (!CanRotate(w, id, b.grant) || f.rotate != Done, RotateFailed),
                       (f.updateRow != Done, UpdateFailed)], RevokeDone);
      UpToSevenChecks([(b.status == Revoked, AlreadyRevoked), (f.resolve, RevokeNoCluster),
                       (f.deleteBinding != Done, UnbindFailed), (f.setStatus != Done, UpdateFailed)], RevokeDone);
      hide FirstFailure, Grant.ForUser, RotationKey;
    }
  }

  /** What a user's revocation does: each call that is made and not lost has its effect, and each is made
      when the ones before it are done. */
  lemma UserRevocationDoes(w: World, id: Id, hash: string, f: RevokeFaults)
    requires id in w.rows && w.rows[id].grant.subjectKind == "user"
    ensures var after, b := AfterRevoke(w, id, hash, f), w.rows[id];
      var k := Key(b.grant.environment, Cluster, id + "-cert");
      var issues := !f.get && b.status == Active && !f.resolve && !f.hash;
      var rotates := issues && f.issue == Done && CanRotate(w, id, b.grant);
      var stores := rotates && f.rotate == Done;
      && after.issued == w.issued + (if issues && f.issue != Lost then [Signed(b.grant, hash)] else [])
      && after.bindings == (if rotates && f.rotate != Lost
           then w.bindings[k := Binding(w.bindings[k].role,
                  w.bindings[k].subjects[0 := Subject(w.bindings[k].subjects[0].kind, b.grant.subjectId + "-" + hash)])]
           else w.bindings)
      && after.rows == (if stores && f.updateRow != Lost then w.rows[id := Row(b.grant, hash, Active)] else w.rows)
      && after.roles == w.roles
  {
    var b := w.rows[id];
    var k := Key(b.grant.environment, Cluster, id + "-cert");
    NamesOfParts(id, b.grant, hash);
    if CanRotate(w, id, b.grant) {
      RotatedInPlace(w.bindings[k], UserName(b.grant.subjectId, hash));
    }
    hide Rotated, CertificateOf, Signed, RotationKey, Grant.ForUser;
  }

  lemma RotatedInPlace(b: Binding, name: string)
    requires b.subjects != []
    ensures Rotated(b, name) == Binding(b.role, b.subjects[0 := Subject(b.subjects[0].kind, name)])
  {
    assert [Subject(b.subjects[0].kind, name)] + b.subjects[1..] == b.subjects[0 := Subject(b.subjects[0].kind, name)];
  }

  /** What the revocation of a group or an organization does: the binding goes first; the role, whatever its
      deletion answers, and the mark in the row follow when the binding is gone for sure. */
  lemma GroupRevocationDoes(w: World, id: Id, hash: string, f: RevokeFaults)
    requires id in w.rows && w.rows[id].grant.subjectKind != "user"
    ensures var after, b := AfterRevoke(w, id, hash, f), w.rows[id];
      var unbinds := !f.get && b.status == Active && !f.resolve;
      var follows := unbinds && f.deleteBinding == Done;
      && after.bindings == w.bindings - (if unbinds && f.deleteBinding != Lost then {PlaceOf(b.grant, id + "-cert")} else {})
      && after.roles == w.roles - (if follows && f.deleteRole != Lost then {PlaceOf(b.grant, id + "-role")} else {})
      && after.rows == (if follows && f.setStatus != Lost then w.rows[id := Row(b.grant, b.certHash, Revoked)] else w.rows)
      && after.issued == w.issued
  {
    NamesOfParts(id, w.rows[id].grant, hash);
    hide BindingKey, RoleKey, PlaceOf, Grant.ForUser;
  }

  // ---- deletion ----

  /** What a deletion does: all three deletions are tried, and only the row's decides. */
  lemma DeletionDoes(w: World, id: Id, f: DeleteFaults)
    ensures f.get || id !in w.rows ==> DeleteVerdict(w, id, f) == DeleteNotFound && AfterDelete(w, id, f) == w
    ensures !f.get && id in w.rows && f.resolve ==> DeleteVerdict(w, id, f) == DeleteNoCluster && AfterDelete(w, id, f) == w
    ensures !f.get && id in w.rows && !f.resolve ==>
      var after, g := AfterDelete(w, id, f), w.rows[id].grant;
      && DeleteVerdict(w, id, f) == (if f.deleteRow == Done then Deleted else DeleteFailed)
      && after.bindings == w.bindings - (if f.deleteBinding != Lost then {PlaceOf(g, id + "-cert")} else {})
      && after.roles == w.roles - (if f.deleteRole != Lost then {PlaceOf(g, id + "-role")} else {})
      && after.rows == w.rows - (if f.deleteRow != Lost then {id} else {})
      && after.issued == w.issued
  {
    if id in w.rows {
      NamesOfParts(id, w.rows[id].grant, "");
    }
    hide BindingKey, RoleKey, PlaceOf;
  }
}
