/** Which shape declarations a value may have to clean up: a walk along owning edges. */
module InterfaceCleanup {
  import opened Types

  /** A member of a shape. A variant with several payloads keeps them as members of its own. */
  datatype Member = Member(isUnit: bool, payloads: seq<Member>, resolved: Option<nat>)

  /** A type node. References and raw pointers own nothing; arrays and slices own their elements. */
  datatype Node =
    | Borrowing
    | Owning(pointee: Option<nat>)
    | Elements(element: Option<nat>)
    | ShapeNode(decl: Option<nat>)
    | Other

  /** Types and declarations by identity. */
  datatype Graph = Graph(nodes: map<nat, Node>, members: map<nat, seq<Member>>)

  /** The types a member holds, at the leaves of its payloads. */
  function Leaves(m: Member): set<nat>
    decreases m
  {
    if m.isUnit then {} else if m.payloads != [] then AllLeaves(m.payloads)
    else if m.resolved.Some? then {m.resolved.value} else {}
  }

  function AllLeaves(ms: seq<Member>): set<nat>
    decreases ms
  {
    if ms == [] then {} else Leaves(ms[0]) + AllLeaves(ms[1..])
  }

  function Target(t: Option<nat>): set<nat> {
    if t.Some? then {t.value} else {}
  }

  function Owned(g: Graph, n: nat): set<nat> {
    if n !in g.nodes then {}
    else match g.nodes[n]
      case Owning(pointee) => Target(pointee)
      case Elements(element) => Target(element)
      case ShapeNode(decl) => if decl.Some? && decl.value in g.members then AllLeaves(g.members[decl.value]) else {}
      case _ => {}
  }

  /** No edge leads out of the graph, and every bound shape has its declaration. */
  predicate Closed(g: Graph) {
    forall n | n in g.nodes ::
      && Owned(g, n) <= g.nodes.Keys
      && (g.nodes[n].ShapeNode? && g.nodes[n].decl.Some? ==> g.nodes[n].decl.value in g.members)
  }

  predicate IsPath(g: Graph, path: seq<nat>) {
    path != [] && forall i | 0 <= i < |path| - 1 :: path[i + 1] in Owned(g, path[i])
  }

  /** n can be reached from root along owning edges. */
  ghost predicate Reach(g: Graph, root: nat, n: nat) {
    exists path: seq<nat> :: IsPath(g, path) && path[0] == root && path[|path| - 1] == n
  }

  lemma ReachSelf(g: Graph, n: nat)
    ensures Reach(g, n, n)
  {
    assert IsPath(g, [n]);
  }

  lemma ReachStep(g: Graph, root: nat, n: nat, next: nat)
    requires Reach(g, root, n) && next in Owned(g, n)
    ensures Reach(g, root, next)
  {
    var path: seq<nat> :| IsPath(g, path) && path[0] == root && path[|path| - 1] == n;
    assert IsPath(g, path + [next]);
    assert (path + [next])[|path|] == next;
  }

  lemma {:induction false} PathStays(g: Graph, within: set<nat>, path: seq<nat>)
    requires IsPath(g, path) && path[0] in within
    requires forall n | n in within :: Owned(g, n) <= within
    ensures path[|path| - 1] in within
  {
    if |path| > 1 {
      assert path[0 + 1] in Owned(g, path[0]);
      var rest := path[1..];
      assert forall i | 0 <= i < |rest| :: rest[i] == path[i + 1];
      forall i | 0 <= i < |rest| - 1
        ensures rest[i + 1] in Owned(g, rest[i])
      {
        assert path[(i + 1) + 1] in Owned(g, path[i + 1]);
      }
      PathStays(g, within, rest);
    }
  }

  predicate IsBound(g: Graph, n: nat) {
    n in g.nodes && g.nodes[n].ShapeNode? && g.nodes[n].decl.Some?
  }

  class Visitor {
    const graph: Graph
    var visited: set<nat>
    /** The declarations the callback was given, in order, and the type nodes they were given for. */
    var calls: seq<nat>
    ghost var callers: seq<nat>

    constructor (g: Graph)
      ensures graph == g && visited == {} && calls == [] && Valid()
    {
      graph := g;
      visited := {};
      calls := [];
      callers := [];
    }

    /** One call for each bound shape visited, and no other call. */
    ghost predicate Valid()
      reads this
    {
      && |calls| == |callers|
      && (forall i | 0 <= i < |calls| ::
            callers[i] in visited && IsBound(graph, callers[i]) && calls[i] == graph.nodes[callers[i]].decl.value)
      && (forall i, j | 0 <= i < j < |callers| :: callers[i] != callers[j])
      && (forall n | n in visited && IsBound(graph, n) :: n in callers)
    }

    ghost function Unvisited(): set<nat>
      reads this
    {
      graph.nodes.Keys - visited
    }

    /** What a walk that started with `before` visited has added: nodes that are reachable, with all
        they own. */
    ghost predicate Grown(root: nat, before: set<nat>)
      reads this
    {
      && before <= visited
      && (forall n | n in visited && n !in before :: Reach(graph, root, n) && Owned(graph, n) <= visited)
    }

    method Visit(t: Option<nat>, ghost root: nat)
      requires Closed(graph) && Valid()
      requires t.Some? ==> t.value in graph.nodes && Reach(graph, root, t.value)
      modifies this
      ensures Valid() && Grown(root, old(visited)) && (t.Some? ==> t.value in visited)
      decreases Unvisited(), 0
    {
      if t.None? || t.value in visited {
        return;
      }
      var n := t.value;
      ghost var before := visited;
      visited := visited + {n};
      var node := graph.nodes[n];
      if node.Owning? {
        VisitOwned(n, node.pointee, root, before);
      } else if node.Elements? {
        VisitOwned(n, node.element, root, before);
      } else if node.ShapeNode? && node.decl.Some? {
        calls := calls + [node.decl.value];
        callers := callers + [n];
        forall next | next in AllLeaves(graph.members[node.decl.value])
          ensures next in graph.nodes && Reach(graph, root, next)
        {
          assert next in Owned(graph, n);
          ReachStep(graph, root, n, next);
        }
        VisitMembers(graph.members[node.decl.value], root);
      }
    }

    method VisitOwned(n: nat, target: Option<nat>, ghost root: nat, ghost before: set<nat>)
      requires Closed(graph) && Valid() && n in graph.nodes && Owned(graph, n) == Target(target)
      requires Reach(graph, root, n) && visited == before + {n} && n !in before
      modifies this
      ensures Valid() && Grown(root, before) && n in visited
      decreases Unvisited(), 1
    {
      if target.Some? {
        assert target.value in Owned(graph, n);
        ReachStep(graph, root, n, target.value);
      }
      Visit(target, root);
    }

    method VisitMembers(ms: seq<Member>, ghost root: nat)
      requires Closed(graph) && Valid()
      requires forall n | n in AllLeaves(ms) :: n in graph.nodes && Reach(graph, root, n)
      modifies this
      ensures Valid() && Grown(root, old(visited)) && AllLeaves(ms) <= visited
      decreases Unvisited(), 1, ms
    {
      for i := 0 to |ms|
        invariant Valid() && Grown(root, old(visited))
        invariant forall j | 0 <= j < i :: Leaves(ms[j]) <= visited
      {
        LeavesAmong(ms, i);
        VisitMember(ms[i], root);
      }
      LeavesTogether(ms, visited);
    }

    method VisitMember(m: Member, ghost root: nat)
      requires Closed(graph) && Valid()
      requires forall n | n in Leaves(m) :: n in graph.nodes && Reach(graph, root, n)
      modifies this
      ensures Valid() && Grown(root, old(visited)) && Leaves(m) <= visited
      decreases Unvisited(), 1, m
    {
      if m.isUnit {
        return;
      }
      if m.payloads != [] {
        VisitMembers(m.payloads, root);
      } else {
        Visit(m.resolved, root);
      }
    }
  }

  lemma {:induction false} LeavesAmong(ms: seq<Member>, i: nat)
    requires i < |ms|
    ensures Leaves(ms[i]) <= AllLeaves(ms)
  {
    if i > 0 {
      LeavesAmong(ms[1..], i - 1);
    }
  }

  lemma {:induction false} LeavesTogether(ms: seq<Member>, within: set<nat>)
    requires forall i | 0 <= i < |ms| :: Leaves(ms[i]) <= within
    ensures AllLeaves(ms) <= within
  {
    if ms != [] {
      LeavesTogether(ms[1..], within);
    }
  }

  /** Starting with nothing visited, the callback gets exactly the declarations of the bound shapes
      that the root reaches along owning edges, once for each of their type nodes. */
  method VisitInterfaceCleanupTypes(g: Graph, root: nat) returns (calls: seq<nat>, ghost callers: seq<nat>)
    requires Closed(g) && root in g.nodes
    ensures |calls| == |callers|
    ensures forall i | 0 <= i < |calls| :: IsBound(g, callers[i]) && calls[i] == g.nodes[callers[i]].decl.value
    ensures forall i, j | 0 <= i < j < |callers| :: callers[i] != callers[j]
    ensures forall n :: n in callers <==> IsBound(g, n) && Reach(g, root, n)
    ensures forall d :: d in calls <==> exists n :: IsBound(g, n) && Reach(g, root, n) && g.nodes[n].decl.value == d
  {
    var visitor := new Visitor(g);
    ReachSelf(g, root);
    visitor.Visit(Some(root), root);
    calls, callers := visitor.calls, visitor.callers;
    forall n | Reach(g, root, n)
      ensures n in visitor.visited
    {
      var path: seq<nat> :| IsPath(g, path) && path[0] == root && path[|path| - 1] == n;
      PathStays(g, visitor.visited, path);
    }
    forall d
      ensures d in calls <==> exists n :: IsBound(g, n) && Reach(g, root, n) && g.nodes[n].decl.value == d
    {
      if d in calls {
        var i :| 0 <= i < |calls| && calls[i] == d;
        assert callers[i] in callers;
      }
      if n :| IsBound(g, n) && Reach(g, root, n) && g.nodes[n].decl.value == d {
        var i :| 0 <= i < |callers| && callers[i] == n;
        assert calls[i] == d;
      }
    }
  }
}
