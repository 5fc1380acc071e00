/** Cluster permissions: a row in the hub, and a role, a binding and, for users, a certificate on
    the target cluster, any call to which may fail with or without having taken effect. */
module ClusterGrants {
  import opened ClusterRoles

  type Id = string

  const USER := "user"
  const GROUP := "group"
  const ORG := "org"

  const USER_KIND := "User"
  const GROUP_KIND := "Group"

  const HASH_LENGTH := 32

  /** Hashes are 16 random bytes in hexadecimal; only their length matters. */
  predicate IsHash(s: string) {
    |s| == HASH_LENGTH
  }

  datatype Scope = Cluster | Namespace(name: string)

  /** Where an object lives: the cluster, the scope in it, and its name. */
  datatype Key = Key(environment: Id, scope: Scope, name: string)

  datatype Subject = Subject(kind: string, name: string)

  datatype Binding = Binding(role: string, subjects: seq<Subject>)

  datatype Certificate = Certificate(environment: Id, commonName: string, organization: string)

  /** What is asked for when a permission is created, and never changes afterwards. */
  datatype Grant = Grant(environment: Id, subjectKind: string, subjectId: string, subjectName: string, role: string,
                         clusterScoped: bool, namespace: string, resources: seq<string>, operations: seq<string>)
  {
    predicate Valid() {
      && subjectKind in {USER, GROUP, ORG}
      && role in {ADMIN, OPS, DEV, READONLY, CUSTOM}
      && (role == CUSTOM ==> resources != [] && operations != [])
      && (!clusterScoped ==> namespace != "")
      && (subjectKind != USER ==> subjectName != "")
    }

    predicate ForUser() {
      subjectKind == USER
    }

    function Scope(): Scope {
      if clusterScoped then Cluster else Namespace(namespace)
    }

    /** Only custom roles keep their resources and operations in the row. */
    function Stored(): Grant {
      if role == CUSTOM then this else this.(resources := [], operations := [])
    }

    function Rules(): seq<Rule> {
      RoleTemplate(role, resources, operations)
    }
  }

  datatype Status = Active | Revoked

  datatype Row = Row(grant: Grant, certHash: string, status: Status)

  /** The state: the objects on the clusters, the hub's rows, every certificate signed so far, and
      the identifiers and hashes drawn so far. */
  datatype World = World(roles: map<Key, seq<Rule>>, bindings: map<Key, Binding>, rows: map<Id, Row>,
                         issued: seq<Certificate>, granted: map<Id, Grant>, hashes: set<string>)

  function RoleName(id: Id): string {
    id + "-role"
  }

  function CRBName(id: Id): string {
    id + "-cert"
  }

  function RoleKey(id: Id, g: Grant): Key {
    Key(g.environment, g.Scope(), RoleName(id))
  }

  function BindingKey(id: Id, g: Grant): Key {
    Key(g.environment, g.Scope(), CRBName(id))
  }

  /** Rotation looks for the binding among the cluster-wide ones, whatever the grant's scope. */
  function RotationKey(id: Id, g: Grant): Key {
    Key(g.environment, Cluster, CRBName(id))
  }

  function UserName(subjectId: string, hash: string): string {
    subjectId + "-" + hash
  }

  function K8sSubjectName(g: Grant, hash: string): Subject {
    if g.ForUser() then Subject(USER_KIND, UserName(g.subjectId, hash)) else Subject(GROUP_KIND, g.subjectName)
  }

  // ---- calls and their outcomes ----

  /** A call is done, or is reported as failed having had no effect, or having had it all the same. */
  datatype Call = Done | Lost | Late

  datatype CreateFaults = CreateFaults(resolve: bool, hash: bool, applyRole: Call, applyBinding: Call, insertRow: Call,
                                       issue: Call, deleteBinding: Call, deleteRole: Call, deleteRow: Call)

  datatype CreateOutcome =
    | Granted
    | InvalidGrant
    | CreateNoCluster
    | CreateNoHash
    | RoleFailed
    | BindingFailed
    | InsertFailed
    | IssueFailed

  function CreateVerdict(g: Grant, f: CreateFaults): CreateOutcome {
    if !g.Valid() then InvalidGrant
    else if f.resolve then CreateNoCluster
    else if g.ForUser() && f.hash then CreateNoHash
    else if !f.applyRole.Done? then RoleFailed
    else if !f.applyBinding.Done? then BindingFailed
    else if !f.insertRow.Done? then InsertFailed
    else if g.ForUser() && !f.issue.Done? then IssueFailed
    else Granted
  }

  predicate CreateBegins(g: Grant, f: CreateFaults) {
    CreateVerdict(g, f) !in {InvalidGrant, CreateNoCluster, CreateNoHash}
  }

  /** Whether the role is there in the end: nothing undoes a role that is reported as failed, and
      every later failure deletes it. */
  predicate RoleStays(g: Grant, f: CreateFaults) {
    match CreateVerdict(g, f)
    case Granted => true
    case RoleFailed => f.applyRole == Late
    case BindingFailed => f.deleteRole == Lost
    case InsertFailed => f.deleteRole == Lost
    case IssueFailed => f.deleteRole == Lost
    case _ => false
  }

  predicate BindingStays(g: Grant, f: CreateFaults) {
    match CreateVerdict(g, f)
    case Granted => true
    case BindingFailed => f.applyBinding == Late
    case InsertFailed => f.deleteBinding == Lost
    case IssueFailed => f.deleteBinding == Lost
    case _ => false
  }

  predicate RowStays(g: Grant, f: CreateFaults) {
    match CreateVerdict(g, f)
    case Granted => true
    case InsertFailed => f.insertRow == Late
    case IssueFailed => f.deleteRow == Lost
    case _ => false
  }

  predicate Signs(g: Grant, f: CreateFaults) {
    g.ForUser() && CreateVerdict(g, f) in {Granted, IssueFailed} && f.issue != Lost
  }

  function CertificateOf(g: Grant, hash: string): Certificate {
    Certificate(g.environment, UserName(g.subjectId, hash), hash)
  }

  function NewRow(g: Grant, hash: string): Row {
    Row(g.Stored(), if g.ForUser() then hash else "", Active)
  }

  function NewBinding(id: Id, g: Grant, hash: string): Binding {
    Binding(RoleName(id), [K8sSubjectName(g, hash)])
  }

  /** The world after a creation: what stays of the grant, given which calls failed how. */
  function Created(w: World, id: Id, g: Grant, hash: string, f: CreateFaults): World {
    World(
      if RoleStays(g, f) then w.roles[RoleKey(id, g) := g.Rules()] else w.roles,
      if BindingStays(g, f) then w.bindings[BindingKey(id, g) := NewBinding(id, g, hash)] else w.bindings,
      if RowStays(g, f) then w.rows[id := NewRow(g, hash)] else w.rows,
      if Signs(g, f) then w.issued + [CertificateOf(g, hash)] else w.issued,
      if CreateBegins(g, f) then w.granted[id := g] else w.granted,
      if CreateBegins(g, f) && g.ForUser() then w.hashes + {hash} else w.hashes)
  }

  /** An identifier never used: random identifiers do not repeat. */
  ghost predicate FreshId(w: World, id: Id) {
    && id !in w.granted && id !in w.rows
    && (forall k: Key :: k in w.roles ==> k.name != RoleName(id))
    && forall k: Key :: k in w.bindings ==> k.name != CRBName(id)
  }

  datatype RevokeFaults = RevokeFaults(get: bool, resolve: bool, hash: bool, issue: Call, rotate: Call, updateRow: Call,
                                       deleteBinding: Call, deleteRole: Call, setStatus: Call)

  datatype RevokeOutcome =
    | RevokeDone
    | AlreadyRevoked
    | RevokeNotFound
    | RevokeNoCluster
    | RevokeNoHash
    | ReissueFailed
    | RotateFailed
    | UnbindFailed
    | UpdateFailed

  predicate Rotatable(w: World, id: Id, g: Grant) {
    RotationKey(id, g) in w.bindings && w.bindings[RotationKey(id, g)].subjects != []
  }

  function RevokeVerdict(w: World, id: Id, f: RevokeFaults): RevokeOutcome {
    if f.get || id !in w.rows then RevokeNotFound
    else if w.rows[id].status == Revoked then AlreadyRevoked
    else if f.resolve then RevokeNoCluster
    else
      var g := w.rows[id].grant;
      if g.ForUser() then
        if f.hash then RevokeNoHash
        else if !f.issue.Done? then ReissueFailed
        else if !Rotatable(w, id, g) || !f.rotate.Done? then RotateFailed
        else if !f.updateRow.Done? then UpdateFailed
        else RevokeDone
      else if !f.deleteBinding.Done? then UnbindFailed
      else if !f.setStatus.Done? then UpdateFailed
      else RevokeDone
  }

  function Rotated(b: Binding, name: string): Binding
    requires b.subjects != []
  {
    Binding(b.role, [Subject(b.subjects[0].kind, name)] + b.subjects[1..])
  }

  /** The new hash has been drawn and a certificate for it asked for. */
  predicate Reissues(w: World, id: Id, f: RevokeFaults) {
    && id in w.rows && w.rows[id].grant.ForUser()
    && RevokeVerdict(w, id, f) in {ReissueFailed, RotateFailed, UpdateFailed, RevokeDone}
  }

  /** The binding's subject has been replaced, whether or not that was reported. */
  predicate Rotates(w: World, id: Id, f: RevokeFaults) {
    && Reissues(w, id, f) && RevokeVerdict(w, id, f) != ReissueFailed
    && Rotatable(w, id, w.rows[id].grant) && f.rotate != Lost
  }

  predicate Unbinds(w: World, id: Id, f: RevokeFaults) {
    && id in w.rows && !w.rows[id].grant.ForUser()
    && RevokeVerdict(w, id, f) in {UnbindFailed, UpdateFailed, RevokeDone}
  }

  function AfterReissue(w: World, id: Id, hash: string, f: RevokeFaults): World
    requires Reissues(w, id, f)
  {
    var g := w.rows[id].grant;
    var verdict := RevokeVerdict(w, id, f);
    w.(issued := if f.issue == Lost then w.issued else w.issued + [CertificateOf(g, hash)],
       bindings :=
         if Rotates(w, id, f)
         then w.bindings[RotationKey(id, g) := Rotated(w.bindings[RotationKey(id, g)], UserName(g.subjectId, hash))]
         else w.bindings,
       rows :=
         if verdict in {UpdateFailed, RevokeDone} && f.updateRow != Lost
         then w.rows[id := w.rows[id].(certHash := hash)]
         else w.rows,
       hashes := w.hashes + {hash})
  }

  function AfterUnbind(w: World, id: Id, f: RevokeFaults): World
    requires Unbinds(w, id, f)
  {
    var g := w.rows[id].grant;
    var verdict := RevokeVerdict(w, id, f);
    w.(bindings := if f.deleteBinding == Lost then w.bindings else w.bindings - {BindingKey(id, g)},
       roles := if verdict == UnbindFailed || f.deleteRole == Lost then w.roles else w.roles - {RoleKey(id, g)},
       rows :=
         if verdict != UnbindFailed && f.setStatus != Lost then w.rows[id := w.rows[id].(status := Revoked)] else w.rows)
  }

  function AfterRevoke(w: World, id: Id, hash: string, f: RevokeFaults): World {
    if Reissues(w, id, f) then AfterReissue(w, id, hash, f)
    else if Unbinds(w, id, f) then AfterUnbind(w, id, f)
    else w
  }

  datatype DeleteFaults = DeleteFaults(get: bool, resolve: bool, deleteBinding: Call, deleteRole: Call, deleteRow: Call)

  datatype DeleteOutcome = Deleted | DeleteNotFound | DeleteNoCluster | DeleteFailed

  function DeleteVerdict(w: World, id: Id, f: DeleteFaults): DeleteOutcome {
    if f.get || id !in w.rows then DeleteNotFound
    else if f.resolve then DeleteNoCluster
    else if !f.deleteRow.Done? then DeleteFailed
    else Deleted
  }

  /** The world after a deletion, which passes over what the cluster answers. */
  function AfterDelete(w: World, id: Id, f: DeleteFaults): World {
    if DeleteVerdict(w, id, f) !in {Deleted, DeleteFailed} then w
    else
      var g := w.rows[id].grant;
      w.(bindings := if f.deleteBinding == Lost then w.bindings else w.bindings - {BindingKey(id, g)},
         roles := if f.deleteRole == Lost then w.roles else w.roles - {RoleKey(id, g)},
         rows := if f.deleteRow == Lost then w.rows else w.rows - {id})
  }

  lemma Undone<K, V>(m: map<K, V>, k: K, v: V)
    requires k !in m
    ensures m[k := v] - {k} == m
  {
  }

  /** The world before the service has done anything, on clusters with objects of others. */
  function Start(roles: map<Key, seq<Rule>>, bindings: map<Key, Binding>): World {
    World(roles, bindings, map[], [], map[], {})
  }

  // ---- the service ----

  class GrantService {
    var roles: map<Key, seq<Rule>>
    var bindings: map<Key, Binding>
    var rows: map<Id, Row>
    var issued: seq<Certificate>
    ghost var granted: map<Id, Grant>
    ghost var hashes: set<string>

    ghost function View(): World
      reads this
    {
      World(roles, bindings, rows, issued, granted, hashes)
    }

    constructor (roles: map<Key, seq<Rule>>, bindings: map<Key, Binding>)
      ensures View() == Start(roles, bindings)
    {
      this.roles, this.bindings, rows, issued := roles, bindings, map[], [];
      granted, hashes := map[], {};
    }

    method ApplyRole(k: Key, rules: seq<Rule>, c: Call) returns (ok: bool)
      modifies this`roles
      ensures ok == c.Done?
      ensures roles == if c.Lost? then old(roles) else old(roles)[k := rules]
    {
      if !c.Lost? {
        roles := roles[k := rules];
      }
      ok := c.Done?;
    }

    method DeleteRole(k: Key, c: Call) returns (ok: bool)
      modifies this`roles
      ensures ok == c.Done?
      ensures roles == if c.Lost? then old(roles) else old(roles) - {k}
    {
      if !c.Lost? {
        roles := roles - {k};
      }
      ok := c.Done?;
    }

    method ApplyBinding(k: Key, role: string, subject: Subject, c: Call) returns (ok: bool)
      modifies this`bindings
      ensures ok == c.Done?
      ensures bindings == if c.Lost? then old(bindings) else old(bindings)[k := Binding(role, [subject])]
    {
      if !c.Lost? {
        bindings := bindings[k := Binding(role, [subject])];
      }
      ok := c.Done?;
    }

    method DeleteBinding(k: Key, c: Call) returns (ok: bool)
      modifies this`bindings
      ensures ok == c.Done?
      ensures bindings == if c.Lost? then old(bindings) else old(bindings) - {k}
    {
      if !c.Lost? {
        bindings := bindings - {k};
      }
      ok := c.Done?;
    }

    method IssueUserKubeconfig(cert: Certificate, c: Call) returns (ok: bool)
      modifies this`issued
      ensures ok == c.Done?
      ensures issued == if c.Lost? then old(issued) else old(issued) + [cert]
    {
      if !c.Lost? {
        issued := issued + [cert];
      }
      ok := c.Done?;
    }

    /** Replaces the name of the first subject of a cluster-wide binding. */
    method RevokeUserSubject(k: Key, name: string, c: Call) returns (ok: bool)
      modifies this`bindings
      ensures ok == (c.Done? && k in old(bindings) && old(bindings)[k].subjects != [])
      ensures bindings ==
        if !c.Lost? && k in old(bindings) && old(bindings)[k].subjects != []
        then old(bindings)[k := Rotated(old(bindings)[k], name)]
        else old(bindings)
    {
      if k !in bindings || bindings[k].subjects == [] {
        return false;
      }
      if !c.Lost? {
        var b := bindings[k];
        bindings := bindings[k := Binding(b.role, b.subjects[0 := Subject(b.subjects[0].kind, name)])];
        assert b.subjects[0 := Subject(b.subjects[0].kind, name)] == Rotated(b, name).subjects;
      }
      ok := c.Done?;
    }

    method SaveRow(id: Id, row: Row, c: Call) returns (ok: bool)
      modifies this`rows
      ensures ok == c.Done?
      ensures rows == if c.Lost? then old(rows) else old(rows)[id := row]
    {
      if !c.Lost? {
        rows := rows[id := row];
      }
      ok := c.Done?;
    }

    method DeleteRow(id: Id, c: Call) returns (ok: bool)
      modifies this`rows
      ensures ok == c.Done?
      ensures rows == if c.Lost? then old(rows) else old(rows) - {id}
    {
      if !c.Lost? {
        rows := rows - {id};
      }
      ok := c.Done?;
    }

    /** Deletes what a failed creation has applied on the cluster, passing over failures. */
    method RollBack(bindingKey: Key, roleKey: Key, deleteBinding: Call, deleteRole: Call)
      modifies this`bindings, this`roles
      ensures bindings == if deleteBinding.Lost? then old(bindings) else old(bindings) - {bindingKey}
      ensures roles == if deleteRole.Lost? then old(roles) else old(roles) - {roleKey}
    {
      var _ := DeleteBinding(bindingKey, deleteBinding);
      var _ := DeleteRole(roleKey, deleteRole);
    }

    /** Applies role, binding, row and certificate in this order; a failure undoes the earlier ones. */
    method Provision(id: Id, g: Grant, hash: string, f: CreateFaults) returns (outcome: CreateOutcome, kubeconfig: seq<Certificate>)
      requires RoleKey(id, g) !in roles && BindingKey(id, g) !in bindings && id !in rows
      requires CreateBegins(g, f)
      modifies this`roles, this`bindings, this`rows, this`issued
      ensures outcome == CreateVerdict(g, f)
      ensures roles == if RoleStays(g, f) then old(roles)[RoleKey(id, g) := g.Rules()] else old(roles)
      ensures bindings ==
        if BindingStays(g, f) then old(bindings)[BindingKey(id, g) := NewBinding(id, g, hash)] else old(bindings)
      ensures rows == if RowStays(g, f) then old(rows)[id := NewRow(g, hash)] else old(rows)
      ensures issued == if Signs(g, f) then old(issued) + [CertificateOf(g, hash)] else old(issued)
      ensures kubeconfig == if outcome == Granted && g.ForUser() then [CertificateOf(g, hash)] else []
    {
      var roleKey, bindingKey := RoleKey(id, g), BindingKey(id, g);
      Undone(roles, roleKey, g.Rules());
      Undone(bindings, bindingKey, NewBinding(id, g, hash));
      Undone(rows, id, NewRow(g, hash));
      hide RoleKey, BindingKey, RoleName, NewRow, CertificateOf, K8sSubjectName, Grant.Rules, Grant.Valid;
      kubeconfig := [];
      var ok := ApplyRole(roleKey, g.Rules(), f.applyRole);
      if !ok {
        return RoleFailed, [];
      }
      ok := ApplyBinding(bindingKey, RoleName(id), K8sSubjectName(g, hash), f.applyBinding);
      if !ok {
        ok := DeleteRole(roleKey, f.deleteRole);
        return BindingFailed, [];
      }
      ok := SaveRow(id, NewRow(g, hash), f.insertRow);
      if !ok {
        RollBack(bindingKey, roleKey, f.deleteBinding, f.deleteRole);
        return InsertFailed, [];
      }
      if g.ForUser() {
        var cert := CertificateOf(g, hash);
        ok := IssueUserKubeconfig(cert, f.issue);
        if !ok {
          RollBack(bindingKey, roleKey, f.deleteBinding, f.deleteRole);
          ok := DeleteRow(id, f.deleteRow);
          return IssueFailed, [];
        }
        kubeconfig := [cert];
      }
      outcome := Granted;
    }

    method Create(id: Id, g: Grant, hash: string, f: CreateFaults) returns (outcome: CreateOutcome, kubeconfig: seq<Certificate>)
      requires FreshId(View(), id)
      modifies this
      ensures outcome == CreateVerdict(g, f)
      ensures View() == Created(old(View()), id, g, hash, f)
      ensures kubeconfig == if outcome == Granted && g.ForUser() then [CertificateOf(g, hash)] else []
    {
      if !g.Valid() {
        return InvalidGrant, [];
      }
      if f.resolve {
        return CreateNoCluster, [];
      }
      if g.ForUser() && f.hash {
        return CreateNoHash, [];
      }
      granted := granted[id := g];
      if g.ForUser() {
        hashes := hashes + {hash};
      }
      outcome, kubeconfig := Provision(id, g, hash, f);
    }

    /** For a user, issues a certificate under a new hash, then replaces the binding's subject, then
        stores the hash; for a group or organization, deletes the binding. The row returned for a
        group is the one read, with its old status. */
    method Revoke(id: Id, hash: string, f: RevokeFaults) returns (outcome: RevokeOutcome, returned: seq<Row>, kubeconfig: seq<Certificate>)
      modifies this
      ensures outcome == RevokeVerdict(old(View()), id, f)
      ensures View() == AfterRevoke(old(View()), id, hash, f)
      ensures outcome !in {RevokeDone, AlreadyRevoked} ==> returned == [] && kubeconfig == []
      ensures outcome == RevokeDone && old(rows[id].grant.ForUser()) ==>
        returned == [rows[id]] && kubeconfig == [CertificateOf(rows[id].grant, hash)]
      ensures outcome == AlreadyRevoked || (outcome == RevokeDone && !old(rows[id].grant.ForUser())) ==>
        returned == [old(rows[id])] && kubeconfig == []
    {
      hide UserName, CRBName, RoleName, CertificateOf, BindingKey, RoleKey, RotationKey, Rotated, Grant.ForUser;
      returned, kubeconfig := [], [];
      if f.get || id !in rows {
        return RevokeNotFound, [], [];
      }
      var b := rows[id];
      if b.status == Revoked {
        return AlreadyRevoked, [b], [];
      }
      if f.resolve {
        return RevokeNoCluster, [], [];
      }
      if b.grant.ForUser() {
        if f.hash {
          return RevokeNoHash, [], [];
        }
        hashes := hashes + {hash};
        var cert := CertificateOf(b.grant, hash);
        var ok := IssueUserKubeconfig(cert, f.issue);
        if !ok {
          return ReissueFailed, [], [];
        }
        ok := RevokeUserSubject(RotationKey(id, b.grant), UserName(b.grant.subjectId, hash), f.rotate);
        if !ok {
          return RotateFailed, [], [];
        }
        b := b.(certHash := hash);
        ok := SaveRow(id, b, f.updateRow);
        if !ok {
          return UpdateFailed, [], [];
        }
        return RevokeDone, [b], [cert];
      }
      var ok := DeleteBinding(BindingKey(id, b.grant), f.deleteBinding);
      if !ok {
        return UnbindFailed, [], [];
      }
      ok := DeleteRole(RoleKey(id, b.grant), f.deleteRole);
      ok := SaveRow(id, b.(status := Revoked), f.setStatus);
      if !ok {
        return UpdateFailed, [], [];
      }
      return RevokeDone, [b], [];
    }

    method Delete(id: Id, f: DeleteFaults) returns (outcome: DeleteOutcome)
      modifies this
      ensures outcome == DeleteVerdict(old(View()), id, f)
      ensures View() == AfterDelete(old(View()), id, f)
    {
      if f.get || id !in rows {
        return DeleteNotFound;
      }
      var b := rows[id];
      if f.resolve {
        return DeleteNoCluster;
      }
      var ok := DeleteBinding(BindingKey(id, b.grant), f.deleteBinding);
      ok := DeleteRole(RoleKey(id, b.grant), f.deleteRole);
      ok := DeleteRow(id, f.deleteRow);
      outcome := if ok then Deleted else DeleteFailed;
    }
  }
}
