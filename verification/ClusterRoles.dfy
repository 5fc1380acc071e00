/** What a cluster role lets its holders do: the five role templates. */
module ClusterRoles {

  datatype Rule = Rule(groups: set<string>, resources: set<string>, verbs: set<string>)

  const ADMIN := "admin"
  const OPS := "ops"
  const DEV := "dev"
  const READONLY := "readonly"
  const CUSTOM := "custom"

  const RBAC_GROUP := "rbac.authorization.k8s.io"
  const WORKLOADS := {"pods", "deployments", "replicasets", "statefulsets", "daemonsets", "jobs", "cronjobs"}
  const NETWORK := {"services", "endpoints", "ingresses", "networkpolicies"}
  const MANAGE_VERBS := ["create", "update", "patch", "delete", "deletecollection"]
  const QUERY_VERBS := ["get", "list", "watch"]
  const ALL_VERBS := {"get", "list", "watch", "create", "update", "patch", "delete", "deletecollection"}

  function KindsOf(resource: string): seq<string> {
    if resource == "pods" then ["pods"]
    else if resource == "deployments" then ["deployments", "replicasets", "statefulsets", "daemonsets", "jobs", "cronjobs"]
    else if resource == "services" then ["services", "endpoints", "ingresses"]
    else if resource == "configmaps-secrets" then ["configmaps", "secrets"]
    else if resource == "namespaces" then ["namespaces", "limitranges", "resourcequotas"]
    else []
  }

  function OperationVerbs(op: string): seq<string> {
    if op == "manage" then MANAGE_VERBS else if op == "query" then QUERY_VERBS else []
  }

  function Kinds(classes: seq<string>): set<string> {
    set c, k | c in classes && k in KindsOf(c) :: k
  }

  function Verbs(ops: seq<string>): set<string> {
    set op, v | op in ops && v in OperationVerbs(op) :: v
  }

  function CustomRules(classes: seq<string>, ops: seq<string>): seq<Rule> {
    if Kinds(classes) == {} || Verbs(ops) == {} then [] else [Rule({""}, Kinds(classes), Verbs(ops))]
  }

  /** Expands resource classes and operations by collecting both into sets. */
  method VerbsFor(classes: seq<string>, ops: seq<string>) returns (rules: seq<Rule>)
    ensures rules == CustomRules(classes, ops)
  {
    hide KindsOf, OperationVerbs;
    var kinds: set<string> := {};
    for i := 0 to |classes|
      invariant kinds == Kinds(classes[..i])
    {
      assert classes[..i + 1] == classes[..i] + [classes[i]];
      var found := KindsOf(classes[i]);
      for j := 0 to |found|
        invariant kinds == Kinds(classes[..i]) + set k | k in found[..j]
      {
        kinds := kinds + {found[j]};
        assert found[..j + 1] == found[..j] + [found[j]];
      }
      assert found[..|found|] == found;
    }
    assert classes[..|classes|] == classes;
    var verbs: set<string> := {};
    for i := 0 to |ops|
      invariant verbs == Verbs(ops[..i])
    {
      assert ops[..i + 1] == ops[..i] + [ops[i]];
      var found := OperationVerbs(ops[i]);
      for j := 0 to |found|
        invariant verbs == Verbs(ops[..i]) + set v | v in found[..j]
      {
        verbs := verbs + {found[j]};
        assert found[..j + 1] == found[..j] + [found[j]];
      }
      assert found[..|found|] == found;
    }
    assert ops[..|ops|] == ops;
    if kinds == {} || verbs == {} {
      return [];
    }
    return [Rule({""}, kinds, verbs)];
  }

  function RoleTemplate(role: string, classes: seq<string>, ops: seq<string>): seq<Rule> {
    if role == ADMIN then [Rule({"*"}, {"*"}, {"*"}), Rule({RBAC_GROUP}, {"*"}, {"*"})]
    else if role == OPS then [Rule({""}, WORKLOADS + NETWORK, ALL_VERBS)]
    else if role == DEV then [Rule({""}, WORKLOADS, ALL_VERBS)]
    else if role == READONLY then [Rule({"*"}, {"*"}, {"get", "list", "watch"})]
    else if role == CUSTOM then CustomRules(classes, ops)
    else []
  }

  /** A rule covers a name that it lists, or any name when it lists the wildcard. */
  predicate Covers(names: set<string>, name: string) {
    name in names || "*" in names
  }

  ghost predicate Permits(rules: seq<Rule>, group: string, kind: string, verb: string) {
    exists r :: r in rules && Covers(r.groups, group) && Covers(r.resources, kind) && Covers(r.verbs, verb)
  }

  lemma NoWildcards(classes: seq<string>, ops: seq<string>)
    ensures "*" !in Kinds(classes) && "*" !in Verbs(ops)
  {
    forall c
      ensures "*" !in KindsOf(c)
    {
    }
    forall op
      ensures "*" !in OperationVerbs(op)
    {
    }
  }

  /** The kinds in a class of resources. */
  predicate ClassHolds(resource: string, kind: string) {
    || (resource == "pods" && kind == "pods")
    || (resource == "deployments"
        && kind in {"deployments", "replicasets", "statefulsets", "daemonsets", "jobs", "cronjobs"})
    || (resource == "services" && kind in {"services", "endpoints", "ingresses"})
    || (resource == "configmaps-secrets" && kind in {"configmaps", "secrets"})
    || (resource == "namespaces" && kind in {"namespaces", "limitranges", "resourcequotas"})
  }

  /** To manage is to write in any way, to query is to read in any way. */
  predicate OperationAllows(op: string, verb: string) {
    || (op == "manage" && verb in {"create", "update", "patch", "delete", "deletecollection"})
    || (op == "query" && verb in {"get", "list", "watch"})
  }

  /** A custom role permits a verb on a kind exactly when one of its classes holds the kind and one
      of its operations allows the verb, and then only in the core API group. */
  lemma CustomPermitsIff(classes: seq<string>, ops: seq<string>, group: string, kind: string, verb: string)
    ensures Permits(RoleTemplate(CUSTOM, classes, ops), group, kind, verb)
      <==> group == "" && (exists c :: c in classes && ClassHolds(c, kind)) && exists op :: op in ops && OperationAllows(op, verb)
  {
    var rules := RoleTemplate(CUSTOM, classes, ops);
    assert rules == CustomRules(classes, ops);
    NoWildcards(classes, ops);
    forall c
      ensures kind in KindsOf(c) <==> ClassHolds(c, kind)
    {
      KindsAreHeld(c, kind);
    }
    forall op
      ensures verb in OperationVerbs(op) <==> OperationAllows(op, verb)
    {
      VerbsAreAllowed(op, verb);
    }
    hide KindsOf, OperationVerbs, RoleTemplate, ClassHolds, OperationAllows;
    if kind in Kinds(classes) && verb in Verbs(ops) {
      assert rules[0] in rules;
    }
  }

  /** A rule is made only if it permits something, and then it is the only one. */
  lemma RuleOnlyIfUseful(classes: seq<string>, ops: seq<string>)
    ensures |CustomRules(classes, ops)| <= 1
    ensures CustomRules(classes, ops) != [] ==> exists kind, verb :: Permits(CustomRules(classes, ops), "", kind, verb)
  {
    hide KindsOf, OperationVerbs, Kinds, Verbs;
    var rules := CustomRules(classes, ops);
    if rules != [] {
      var kind :| kind in Kinds(classes);
      var verb :| verb in Verbs(ops);
      assert rules[0] in rules && Covers(rules[0].groups, "");
      assert Permits(rules, "", kind, verb);
    }
  }

  lemma KindsAreHeld(resource: string, kind: string)
    ensures kind in KindsOf(resource) <==> ClassHolds(resource, kind)
  {
  }

  lemma VerbsAreAllowed(op: string, verb: string)
    ensures verb in OperationVerbs(op) <==> OperationAllows(op, verb)
  {
  }

  /** What the predefined roles permit: the administrator everything, operations every verb on workloads
      and network, development every verb on workloads, both in the core group only, and the read-only
      role to read anything. Any other name permits nothing. */
  lemma PredefinedPermitIff(role: string, classes: seq<string>, ops: seq<string>, group: string, kind: string, verb: string)
    requires role != "custom"
    ensures Permits(RoleTemplate(role, classes, ops), group, kind, verb) <==>
      || role == "admin"
      || (role == "readonly" && verb in {"get", "list", "watch"})
      || (role in {"ops", "dev"} && group == ""
          && verb in {"get", "list", "watch", "create", "update", "patch", "delete", "deletecollection"}
          && (kind in {"pods", "deployments", "replicasets", "statefulsets", "daemonsets", "jobs", "cronjobs"}
              || (role == "ops" && kind in {"services", "endpoints", "ingresses", "networkpolicies"})))
  {
    hide Covers;
    var rules := RoleTemplate(role, classes, ops);
    if rules == [] {
      assert !Permits(rules, group, kind, verb);
    } else {
      assert rules[0] in rules;
      CoversByName(rules[0].groups, group);
      CoversByName(rules[0].resources, kind);
      CoversByName(rules[0].verbs, verb);
    }
  }

  lemma CoversByName(names: set<string>, name: string)
    ensures Covers(names, name) <==> name in names || "*" in names
  {
  }
}
