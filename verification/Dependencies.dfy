/** The dependency graph between components: edges are added only when they close no cycle. */
module Dependencies {

  type Id = string

  /** `component` depends on `dependsOn`. */
  datatype Edge = Edge(component: Id, dependsOn: Id)

  // ---- reachability ----

  /** `b` is `n` edges away from `a`. */
  ghost predicate ReachesIn(es: set<Edge>, a: Id, b: Id, n: nat)
    decreases n
  {
    if n == 0 then a == b
    else exists c :: ReachesIn(es, a, c, n - 1) && Edge(c, b) in es
  }

  ghost predicate Reaches(es: set<Edge>, a: Id, b: Id) {
    exists n: nat :: ReachesIn(es, a, b, n)
  }

  lemma ReachesItself(es: set<Edge>, a: Id)
    ensures Reaches(es, a, a)
  {
    assert ReachesIn(es, a, a, 0);
  }

  lemma ReachesNext(es: set<Edge>, a: Id, b: Id, c: Id)
    requires Reaches(es, a, b) && Edge(b, c) in es
    ensures Reaches(es, a, c)
  {
    var n: nat :| ReachesIn(es, a, b, n);
    assert ReachesIn(es, a, c, n + 1);
  }

  lemma {:induction false} ReachesOn(es: set<Edge>, a: Id, b: Id, c: Id, m: nat)
    requires Reaches(es, a, b) && ReachesIn(es, b, c, m)
    ensures Reaches(es, a, c)
    decreases m
  {
    if m > 0 {
      var d :| ReachesIn(es, b, d, m - 1) && Edge(d, c) in es;
      ReachesOn(es, a, b, d, m - 1);
      ReachesNext(es, a, d, c);
    }
  }

  lemma ReachesTransitive(es: set<Edge>, a: Id, b: Id, c: Id)
    requires Reaches(es, a, b) && Reaches(es, b, c)
    ensures Reaches(es, a, c)
  {
    var m: nat :| ReachesIn(es, b, c, m);
    ReachesOn(es, a, b, c, m);
  }

  /** A set that contains the start and every edge out of itself contains all that is reachable. */
  lemma {:induction false} ClosedHoldsReachable(es: set<Edge>, s: set<Id>, a: Id, b: Id, n: nat)
    requires a in s && forall e :: e in es && e.component in s ==> e.dependsOn in s
    requires ReachesIn(es, a, b, n)
    ensures b in s
    decreases n
  {
    if n > 0 {
      var c :| ReachesIn(es, a, c, n - 1) && Edge(c, b) in es;
      ClosedHoldsReachable(es, s, a, c, n - 1);
    }
  }

  // ---- acyclicity ----

  ghost predicate Acyclic(es: set<Edge>) {
    forall e :: e in es ==> !Reaches(es, e.dependsOn, e.component)
  }

  lemma {:induction false} MoreEdgesReachMore(es: set<Edge>, fs: set<Edge>, a: Id, b: Id, n: nat)
    requires es <= fs && ReachesIn(es, a, b, n)
    ensures Reaches(fs, a, b)
    decreases n
  {
    if n == 0 {
      ReachesItself(fs, a);
    } else {
      var c :| ReachesIn(es, a, c, n - 1) && Edge(c, b) in es;
      MoreEdgesReachMore(es, fs, a, c, n - 1);
      ReachesNext(fs, a, c, b);
    }
  }

  /** A way that may use the new edge either does not, or goes to its start and on from its end. */
  lemma {:induction false} ThroughNewEdge(es: set<Edge>, e: Edge, a: Id, b: Id, n: nat)
    requires ReachesIn(es + {e}, a, b, n)
    ensures Reaches(es, a, b) || (Reaches(es, a, e.component) && Reaches(es, e.dependsOn, b))
    decreases n
  {
    if n == 0 {
      ReachesItself(es, a);
    } else {
      var c :| ReachesIn(es + {e}, a, c, n - 1) && Edge(c, b) in es + {e};
      ThroughNewEdge(es, e, a, c, n - 1);
      ReachesItself(es, e.dependsOn);
      if Edge(c, b) in es {
        if Reaches(es, a, c) {
          ReachesNext(es, a, c, b);
        } else {
          ReachesNext(es, e.dependsOn, c, b);
        }
      }
    }
  }

  /** An edge keeps an acyclic graph acyclic exactly when its end does not reach its start. */
  lemma NewEdgeClosesCycleIff(es: set<Edge>, e: Edge)
    requires Acyclic(es)
    ensures Acyclic(es + {e}) <==> !Reaches(es, e.dependsOn, e.component)
  {
    var fs := es + {e};
    if Reaches(es, e.dependsOn, e.component) {
      var n: nat :| ReachesIn(es, e.dependsOn, e.component, n);
      MoreEdgesReachMore(es, fs, e.dependsOn, e.component, n);
      assert e in fs;
    } else {
      forall f | f in fs
        ensures !Reaches(fs, f.dependsOn, f.component)
      {
        if Reaches(fs, f.dependsOn, f.component) {
          CycleNeedsNewEdge(es, e, f);
        }
      }
    }
  }

  lemma CycleNeedsNewEdge(es: set<Edge>, e: Edge, f: Edge)
    requires Acyclic(es) && f in es + {e} && Reaches(es + {e}, f.dependsOn, f.component)
    ensures Reaches(es, e.dependsOn, e.component)
  {
    var n: nat :| ReachesIn(es + {e}, f.dependsOn, f.component, n);
    ThroughNewEdge(es, e, f.dependsOn, f.component, n);
    if f in es {
      ReachesNext(es, e.dependsOn, f.component, f.dependsOn);
      ReachesTransitive(es, e.dependsOn, f.dependsOn, e.component);
    }
  }

  lemma FewerEdgesStayAcyclic(es: set<Edge>, fs: set<Edge>)
    requires Acyclic(es) && fs <= es
    ensures Acyclic(fs)
  {
    forall f | f in fs
      ensures !Reaches(fs, f.dependsOn, f.component)
    {
      if Reaches(fs, f.dependsOn, f.component) {
        var n: nat :| ReachesIn(fs, f.dependsOn, f.component, n);
        MoreEdgesReachMore(fs, es, f.dependsOn, f.component, n);
      }
    }
  }

  // ---- the cycle check ----

  function EdgeSet(edges: seq<Edge>): set<Edge> {
    set e | e in edges
  }

  function Ends(edges: seq<Edge>): set<Id> {
    set e | e in edges :: e.dependsOn
  }

  /** The adjacency lists: for each component the dependencies its edges name, in edge order. */
  ghost predicate IsAdjacency(adj: map<Id, seq<Id>>, edges: seq<Edge>) {
    forall c, d :: (c in adj && d in adj[c]) <==> Edge(c, d) in edges
  }

  method Adjacency(edges: seq<Edge>) returns (adj: map<Id, seq<Id>>)
    ensures IsAdjacency(adj, edges)
  {
    adj := map[];
    for i := 0 to |edges|
      invariant IsAdjacency(adj, edges[..i])
    {
      var e := edges[i];
      assert edges[..i + 1] == edges[..i] + [e];
      adj := adj[e.component := (if e.component in adj then adj[e.component] else []) + [e.dependsOn]];
    }
    assert edges[..|edges|] == edges;
  }

  ghost function OnStack(stack: seq<Id>): set<Id> {
    set x | x in stack
  }

  /** What the search knows: everything seen is reachable, and what has been taken off the stack is
      not the target and has all its dependencies seen. */
  ghost predicate Searching(es: set<Edge>, from: Id, to: Id, seen: set<Id>, stack: seq<Id>) {
    && to in seen && OnStack(stack) <= seen
    && (forall i, j :: 0 <= i < j < |stack| ==> stack[i] != stack[j])
    && (forall x :: x in seen ==> Reaches(es, to, x))
    && (forall x :: x in seen && x !in stack ==> x != from)
    && forall e :: e in es && e.component in seen && e.component !in stack ==> e.dependsOn in seen
  }

  /** The same while the dependencies of `cur`, just taken off the stack, are being pushed. */
  ghost predicate Pushing(es: set<Edge>, to: Id, before: set<Id>, waiting: seq<Id>, cur: Id, seen: set<Id>, stack: seq<Id>) {
    && before <= seen && OnStack(stack) <= seen && cur !in stack
    && (forall i, j :: 0 <= i < j < |stack| ==> stack[i] != stack[j])
    && (forall x :: x in before && x !in waiting ==> x !in stack)
    && (forall x :: x in seen ==> Reaches(es, to, x))
    && forall x :: x in seen && x !in stack ==> x in before && (x == cur || x !in waiting)
  }

  lemma PopStarts(es: set<Edge>, from: Id, to: Id, seen: set<Id>, stack: seq<Id>)
    requires Searching(es, from, to, seen, stack) && stack != []
    ensures Pushing(es, to, seen, stack, stack[|stack| - 1], seen, stack[..|stack| - 1])
    ensures stack[|stack| - 1] in seen && Reaches(es, to, stack[|stack| - 1])
  {
    var rest, cur := stack[..|stack| - 1], stack[|stack| - 1];
    assert stack == rest + [cur];
    assert cur in OnStack(stack);
  }

  lemma PushKeeps(es: set<Edge>, to: Id, before: set<Id>, waiting: seq<Id>, cur: Id, seen: set<Id>, stack: seq<Id>, next: Id)
    requires Pushing(es, to, before, waiting, cur, seen, stack)
    requires next !in seen && Reaches(es, to, cur) && Edge(cur, next) in es && cur in before
    ensures Pushing(es, to, before, waiting, cur, seen + {next}, stack + [next])
  {
    ReachesNext(es, to, cur, next);
    assert next !in OnStack(stack);
  }

  /** The components not yet taken off the stack. */
  ghost function Unexplored(universe: set<Id>, seen: set<Id>, stack: seq<Id>): nat {
    |universe - (seen - OnStack(stack))|
  }

  lemma StepDone(es: set<Edge>, from: Id, to: Id, before: set<Id>, waiting: seq<Id>, cur: Id, seen: set<Id>,
                 stack: seq<Id>, universe: set<Id>)
    requires Searching(es, from, to, before, waiting) && cur in waiting && cur != from
    requires Pushing(es, to, before, waiting, cur, seen, stack) && seen <= universe
    requires forall next :: Edge(cur, next) in es ==> next in seen
    ensures Searching(es, from, to, seen, stack)
    ensures Unexplored(universe, seen, stack) < Unexplored(universe, before, waiting)
  {
    forall e | e in es && e.component in seen && e.component !in stack
      ensures e.dependsOn in seen
    {
      if e.component == cur {
        assert e == Edge(cur, e.dependsOn);
      }
    }
    var left, right := universe - (seen - OnStack(stack)), universe - (before - OnStack(waiting));
    assert cur in right && cur !in left;
    assert left <= right - {cur};
    Shrinks(left, right - {cur});
  }

  /** Whether `to` already reaches `from`, found by a depth-first search with an explicit stack. */
  method ClosesCycle(edges: seq<Edge>, from: Id, to: Id) returns (closes: bool)
    ensures closes <==> Reaches(EdgeSet(edges), to, from)
  {
    var adj := Adjacency(edges);
    ghost var es := EdgeSet(edges);
    ghost var universe := {to} + Ends(edges);
    var seen := {to};
    var stack := [to];
    SearchStarts(es, from, to);
    hide Searching, Pushing, Reaches, OnStack, EdgeSet, Ends, IsAdjacency, Unexplored;
    while |stack| > 0
      invariant Searching(es, from, to, seen, stack) && seen <= universe
      decreases Unexplored(universe, seen, stack)
    {
      ghost var before, waiting := seen, stack;
      PopStarts(es, from, to, seen, stack);
      var cur := stack[|stack| - 1];
      stack := stack[..|stack| - 1];
      if cur == from {
        return true;
      }
      var nexts := if cur in adj then adj[cur] else [];
      for j := 0 to |nexts|
        invariant Pushing(es, to, before, waiting, cur, seen, stack) && seen <= universe
        invariant forall k :: 0 <= k < j ==> nexts[k] in seen
      {
        var next := nexts[j];
        if next !in seen {
          AdjacencyMember(edges, adj, nexts, cur, next);
          PushKeeps(es, to, before, waiting, cur, seen, stack, next);
          seen := seen + {next};
          stack := stack + [next];
        }
      }
      forall next | Edge(cur, next) in es
        ensures next in seen
      {
        AdjacencyMember(edges, adj, nexts, cur, next);
      }
      StepDone(es, from, to, before, waiting, cur, seen, stack, universe);
    }
    NothingLeft(es, from, to, seen, stack);
    return false;
  }

  lemma SearchStarts(es: set<Edge>, from: Id, to: Id)
    ensures Searching(es, from, to, {to}, [to])
  {
    ReachesItself(es, to);
  }

  lemma AdjacencyMember(edges: seq<Edge>, adj: map<Id, seq<Id>>, nexts: seq<Id>, cur: Id, next: Id)
    requires IsAdjacency(adj, edges) && nexts == if cur in adj then adj[cur] else []
    ensures next in nexts <==> Edge(cur, next) in EdgeSet(edges)
    ensures next in nexts ==> next in Ends(edges)
  {
    if next in nexts {
      assert Edge(cur, next) in edges && Edge(cur, next).dependsOn == next;
    }
  }

  lemma NothingLeft(es: set<Edge>, from: Id, to: Id, seen: set<Id>, stack: seq<Id>)
    requires Searching(es, from, to, seen, stack) && stack == []
    ensures !Reaches(es, to, from)
  {
    if Reaches(es, to, from) {
      var n: nat :| ReachesIn(es, to, from, n);
      ClosedHoldsReachable(es, seen, to, from, n);
    }
  }

  lemma {:induction false} Shrinks(a: set<Id>, b: set<Id>)
    requires a <= b
    ensures |a| <= |b|
  {
    if a != {} {
      var x :| x in a;
      Shrinks(a - {x}, b - {x});
    }
  }

  // ---- the service ----

  datatype Faults = Faults(lookUp: bool, list: bool, insert: bool)

  datatype AddOutcome =
    | Added
    | SelfDependency
    | UnknownComponent
    | UnknownDependency
    | DuplicateDependency
    | CircularDependency
    | StoreFailed

  /** What adding an edge comes to. A failed look-up of the edge is passed over, and a duplicate is
      then stopped by the table's unique index. */
  ghost function AddVerdict(components: set<Id>, es: set<Edge>, e: Edge, f: Faults): AddOutcome {
    if e.component == e.dependsOn then SelfDependency
    else if e.component !in components then UnknownComponent
    else if e.dependsOn !in components then UnknownDependency
    else if !f.lookUp && e in es then DuplicateDependency
    else if f.list then StoreFailed
    else if Reaches(es, e.dependsOn, e.component) then CircularDependency
    else if f.insert || e in es then StoreFailed
    else Added
  }

  class DependencyService {
    var components: set<Id>
    var edges: seq<Edge>

    ghost predicate Valid()
      reads this
    {
      forall i, j :: 0 <= i < j < |edges| ==> edges[i] != edges[j]
    }

    constructor (components: set<Id>)
      ensures this.components == components && edges == [] && Valid()
    {
      this.components := components;
      edges := [];
    }

    method Add(component: Id, dependsOn: Id, f: Faults) returns (outcome: AddOutcome)
      requires Valid()
      modifies this`edges
      ensures Valid()
      ensures outcome == AddVerdict(components, old(EdgeSet(edges)), Edge(component, dependsOn), f)
      ensures edges == if outcome == Added then old(edges) + [Edge(component, dependsOn)] else old(edges)
    {
      if component == dependsOn {
        return SelfDependency;
      }
      if component !in components {
        return UnknownComponent;
      }
      if dependsOn !in components {
        return UnknownDependency;
      }
      var e := Edge(component, dependsOn);
      if !f.lookUp && e in edges {
        return DuplicateDependency;
      }
      if f.list {
        return StoreFailed;
      }
      var closes := ClosesCycle(edges, component, dependsOn);
      if closes {
        return CircularDependency;
      }
      if f.insert || e in edges {
        return StoreFailed;
      }
      edges := edges + [e];
      outcome := Added;
    }

    method Remove(component: Id, dependsOn: Id, fails: bool) returns (ok: bool)
      requires Valid()
      modifies this`edges
      ensures Valid() && ok == !fails
      ensures EdgeSet(edges) == old(EdgeSet(edges)) - if ok then {Edge(component, dependsOn)} else {}
    {
      if fails {
        return false;
      }
      var e := Edge(component, dependsOn);
      if i :| 0 <= i < |edges| && edges[i] == e {
        edges := edges[..i] + edges[i + 1..];
        assert forall x :: x in edges <==> x in old(edges) && x != e;
      }
      ok := true;
    }
  }

  // ---- runs ----

  datatype Op =
    | AddEdge(edge: Edge, components: set<Id>, faults: Faults)
    | RemoveEdge(edge: Edge, fails: bool)

  ghost function Step(es: set<Edge>, op: Op): set<Edge> {
    match op
    case AddEdge(e, components, f) => if AddVerdict(components, es, e, f) == Added then es + {e} else es
    case RemoveEdge(e, fails) => if fails then es else es - {e}
  }

  ghost function Run(es: set<Edge>, ops: seq<Op>): set<Edge>
    decreases |ops|
  {
    if ops == [] then es else Run(Step(es, ops[0]), ops[1..])
  }

  /** Every run of additions and removals keeps the graph acyclic, whatever components come and go
      and whichever calls fail. */
  lemma {:induction false} RunStaysAcyclic(es: set<Edge>, ops: seq<Op>)
    requires Acyclic(es)
    ensures Acyclic(Run(es, ops))
    decreases |ops|
  {
    if ops != [] {
      match ops[0] {
        case AddEdge(e, _, _) => NewEdgeClosesCycleIff(es, e);
        case RemoveEdge(e, _) => FewerEdgesStayAcyclic(es, es - {e});
      }
      RunStaysAcyclic(Step(es, ops[0]), ops[1..]);
    }
  }

  /** An edge is rejected as circular only when it would close a cycle, and, when nothing else is
      wrong with it, exactly then. */
  lemma CircularIffWouldClose(components: set<Id>, es: set<Edge>, e: Edge)
    requires Acyclic(es) && e.component in components && e.dependsOn in components && e.component != e.dependsOn && e !in es
    ensures AddVerdict(components, es, e, Faults(false, false, false))
      == if Acyclic(es + {e}) then Added else CircularDependency
  {
    NewEdgeClosesCycleIff(es, e);
  }

  /** When an addition reports what: the edge itself is looked at first, then its two ends, then whether it
      is there already, which a failing look-up leaves to the insertion, then whether the graph would
      stay acyclic. */
  lemma AdditionReports(components: set<Id>, es: set<Edge>, e: Edge, f: Faults)
    requires Acyclic(es)
    ensures var v := AddVerdict(components, es, e, f);
      var bothKnown := e.component != e.dependsOn && e.component in components && e.dependsOn in components;
      var noCycle := Acyclic(es + {e});
      && (v == SelfDependency <==> e.component == e.dependsOn)
      && (v == UnknownComponent <==> e.component != e.dependsOn && e.component !in components)
      && (v == UnknownDependency <==> e.component != e.dependsOn && e.component in components && e.dependsOn !in components)
      && (v == DuplicateDependency <==> bothKnown && e in es && !f.lookUp)
      && (v == CircularDependency <==> bothKnown && !noCycle && !f.list)
      && (v == Added <==> bothKnown && e !in es && noCycle && !f.list && !f.insert)
  {
    NewEdgeClosesCycleIff(es, e);
    if e in es {
      assert es + {e} == es;
    }
  }

  /** An operation changes the graph by its edge or not at all. */
  lemma StepChangesOneEdge(es: set<Edge>, op: Op, x: Edge)
    ensures op.AddEdge? ==>
      (x in Step(es, op) <==> x in es || (x == op.edge && AddVerdict(op.components, es, op.edge, op.faults) == Added))
    ensures op.RemoveEdge? ==> (x in Step(es, op) <==> x in es && !(x == op.edge && !op.fails))
  {
  }

  function Additions(components: set<Id>, edges: seq<Edge>): (ops: seq<Op>)
    ensures |ops| == |edges|
    ensures forall i :: 0 <= i < |edges| ==> ops[i] == AddEdge(edges[i], components, Faults(false, false, false))
  {
    seq(|edges|, i requires 0 <= i < |edges| => AddEdge(edges[i], components, Faults(false, false, false)))
  }

  function EdgesOf(edges: seq<Edge>): set<Edge> {
    set e | e in edges
  }

  /** The check refuses nothing it need not: every acyclic graph can be built, its edges added in any order. */
  lemma {:induction false} AcyclicGraphsAreReached(components: set<Id>, es: set<Edge>, edges: seq<Edge>)
    requires Acyclic(es + EdgesOf(edges))
    requires forall e :: e in edges ==> e !in es && e.component in components && e.dependsOn in components
    requires forall i, j :: 0 <= i < j < |edges| ==> edges[i] != edges[j]
    ensures Run(es, Additions(components, edges)) == es + EdgesOf(edges)
    decreases |edges|
  {
    if edges == [] {
      assert EdgesOf(edges) == {};
    } else {
      var e, rest := edges[0], edges[1..];
      assert edges == [e] + rest;
      assert EdgesOf(edges) == {e} + EdgesOf(rest);
      FewerEdgesStayAcyclic(es + EdgesOf(edges), es);
      FewerEdgesStayAcyclic(es + EdgesOf(edges), es + {e});
      ReachesItself(es + {e}, e.component);
      AdditionReports(components, es, e, Faults(false, false, false));
      assert es + {e} + EdgesOf(rest) == es + EdgesOf(edges);
      assert Additions(components, edges)[1..] == Additions(components, rest);
      hide Acyclic, AddVerdict;
      AcyclicGraphsAreReached(components, es + {e}, rest);
    }
  }
}
