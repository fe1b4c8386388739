/** The search for handle-grammar issues through a type graph that may be cyclic. */
module GrammarSearch {
  import opened Types
  import opened HandleGrammar

  datatype Member = Member(name: string, resolved: TypeRef)

  /** A type node behind its handles. A plain and a dynamic function type are searched alike. */
  datatype Node =
    | Plain
    | ArrayNode(element: TypeRef)
    | SliceNode(element: TypeRef)
    | ShapeNode(args: seq<TypeRef>, members: seq<Member>)
    | FunctionNode(params: seq<TypeRef>, ret: TypeRef)
    | UninitNode(element: TypeRef)
    | OutcomeNode(element: TypeRef)
    | PlaceNode(element: TypeRef)

  type Graph = map<nat, Node>

  /** A chain that ends in the graph, or nowhere. */
  predicate Rooted(g: Graph, t: TypeRef) {
    Soul(t).At? ==> Soul(t).node in g
  }

  predicate NodeRooted(g: Graph, n: Node) {
    match n
    case Plain => true
    case ShapeNode(args, members) =>
      && (forall i | 0 <= i < |args| :: Rooted(g, args[i]))
      && (forall i | 0 <= i < |members| :: Rooted(g, members[i].resolved))
    case FunctionNode(params, ret) => (forall i | 0 <= i < |params| :: Rooted(g, params[i])) && Rooted(g, ret)
    case _ => Rooted(g, n.element)
  }

  /** No node points out of the graph. */
  predicate Closed(g: Graph) {
    forall n | n in g :: NodeRooted(g, g[n])
  }

  datatype Step =
    | Pointee
    | ArrayElement
    | SliceElement
    | GenericArg(index: nat)
    | FunctionParam(index: nat)
    | FunctionReturn
    | ShapeMember(index: nat, name: string)
    | OutcomePayload
    | UninitInner
    | PlaceOutcomeItem

  datatype Issue = Issue(violation: Violation, path: seq<Step>, outer: nat, inner: nat, offending: TypeRef)

  // ---------------------------------------------------------------- paths

  /** The part of a node that a step names. */
  function Child(n: Node, step: Step): Option<TypeRef> {
    match step
    case ArrayElement => if n.ArrayNode? then Some(n.element) else None
    case SliceElement => if n.SliceNode? then Some(n.element) else None
    case GenericArg(i) => if n.ShapeNode? && i < |n.args| then Some(n.args[i]) else None
    case ShapeMember(i, name) =>
      if n.ShapeNode? && i < |n.members| && n.members[i].name == name then Some(n.members[i].resolved) else None
    case FunctionParam(i) => if n.FunctionNode? && i < |n.params| then Some(n.params[i]) else None
    case FunctionReturn => if n.FunctionNode? then Some(n.ret) else None
    case UninitInner => if n.UninitNode? then Some(n.element) else None
    case OutcomePayload => if n.OutcomeNode? then Some(n.element) else None
    case PlaceOutcomeItem => if n.PlaceNode? then Some(n.element) else None
    case Pointee => None
  }

  /** One step from a type: Pointee skips the whole handle chain, every other step needs none. */
  function Take(g: Graph, t: TypeRef, step: Step): Option<TypeRef> {
    if t.Pointer? then (if step.Pointee? && Soul(t).At? then Some(Soul(t)) else None)
    else if t.At? && t.node in g then Child(g[t.node], step)
    else None
  }

  function Follow(g: Graph, t: TypeRef, path: seq<Step>): Option<TypeRef>
    decreases |path|
  {
    if path == [] then Some(t)
    else
      var next := Take(g, t, path[0]);
      if next.None? then None else Follow(g, next.value, path[1..])
  }

  /** More than one handle layer, not all of them raw. */
  predicate TooDeepForParam(layers: seq<Hat>) {
    |layers| >= 2 && !AllRaw(layers)
  }

  predicate AtParam(path: seq<Step>) {
    path != [] && path[|path| - 1].FunctionParam?
  }

  /** No place that a path from t reaches breaks the grammar, and no function parameter is too deep. */
  ghost predicate Conforms(g: Graph, t: TypeRef) {
    forall path :: Follow(g, t, path).Some? ==>
      && Grammatical(Layers(Follow(g, t, path).value))
      && (AtParam(path) ==> !TooDeepForParam(Layers(Follow(g, t, path).value)))
  }

  /** What the issue says is wrong with its offending type, reached along its path. */
  predicate Faulty(issue: Issue, layers: seq<Hat>) {
    if issue.violation.ParamHandleDepthForbidden?
    then AtParam(issue.path) && Grammatical(layers) && TooDeepForParam(layers) && issue.outer == 0 && issue.inner == 1
    else !Grammatical(layers) && issue.violation == Verdict(layers) &&
         Reported(layers, issue.violation, issue.outer, issue.inner)
  }

  /** An issue names a place that its path reaches from t, and what is wrong with that place. */
  predicate Justified(g: Graph, t: TypeRef, issue: Issue) {
    Follow(g, t, issue.path) == Some(issue.offending) && Faulty(issue, Layers(issue.offending))
  }

  // ---------------------------------------------------------------- what a finished search has seen

  /** The chain of t is fine and its end has been entered. */
  predicate Seen(g: Graph, visited: set<nat>, t: TypeRef) {
    Grammatical(Layers(t)) && (Soul(t).At? && Soul(t).node in g ==> Soul(t).node in visited)
  }

  /** Every part of node n has been seen, and no parameter of it is too deep. */
  ghost predicate Done(g: Graph, visited: set<nat>, n: nat) {
    n in g ==> forall step :: Child(g[n], step).Some? ==>
      && Seen(g, visited, Child(g[n], step).value)
      && (step.FunctionParam? ==> !TooDeepForParam(Layers(Child(g[n], step).value)))
  }

  /** The search went on from `before` to `after`, leaving nothing half seen behind. */
  ghost predicate Grown(g: Graph, before: set<nat>, after: set<nat>) {
    before <= after && forall n | n in after && n !in before :: Done(g, after, n)
  }

  lemma DoneLater(g: Graph, before: set<nat>, after: set<nat>, n: nat)
    requires Done(g, before, n) && before <= after
    ensures Done(g, after, n)
  {
  }

  lemma GrownTrans(g: Graph, v1: set<nat>, v2: set<nat>, v3: set<nat>)
    requires Grown(g, v1, v2) && Grown(g, v2, v3)
    ensures Grown(g, v1, v3)
  {
    forall n | n in v3 && n !in v1
      ensures Done(g, v3, n)
    {
      if n in v2 {
        DoneLater(g, v2, v3, n);
      }
    }
  }

  /** Everything entered is done, but for the nodes that are still open. */
  ghost predicate DoneBut(g: Graph, visited: set<nat>, open: set<nat>) {
    open <= visited && forall n | n in visited && n !in open :: Done(g, visited, n)
  }

  lemma DoneButLater(g: Graph, before: set<nat>, after: set<nat>, open: set<nat>)
    requires DoneBut(g, before, open) && Grown(g, before, after)
    ensures DoneBut(g, after, open)
  {
    forall n | n in after && n !in open
      ensures Done(g, after, n)
    {
      if n in before {
        DoneLater(g, before, after, n);
      }
    }
  }

  /** The path does not go on from any open node. */
  predicate Avoids(g: Graph, t: TypeRef, path: seq<Step>, open: set<nat>)
    decreases |path|
  {
    path != [] ==>
      && (t.At? ==> t.node !in open)
      && (Take(g, t, path[0]).Some? ==> Avoids(g, Take(g, t, path[0]).value, path[1..], open))
  }

  /** A search that is done but for the open nodes has seen whatever a path that avoids them leads to. */
  lemma {:induction false} SeenEverywhere(g: Graph, visited: set<nat>, open: set<nat>, t: TypeRef, path: seq<Step>)
    requires DoneBut(g, visited, open) && Avoids(g, t, path, open)
    requires Seen(g, visited, t) && Follow(g, t, path).Some?
    ensures Seen(g, visited, Follow(g, t, path).value)
    ensures AtParam(path) ==> !TooDeepForParam(Layers(Follow(g, t, path).value))
    decreases |path|
  {
    if path != [] {
      var next := Take(g, t, path[0]).value;
      if !t.Pointer? {
        assert Done(g, visited, t.node);
      }
      SeenEverywhere(g, visited, open, next, path[1..]);
      if |path| > 1 {
        assert path[1..][|path| - 2] == path[|path| - 1];
      }
    }
  }

  lemma AvoidsNone(g: Graph, t: TypeRef, path: seq<Step>)
    ensures Avoids(g, t, path, {})
    decreases |path|
  {
  }

  // ---------------------------------------------------------------- which issue comes first

  /** The order in which the parts of a node are searched. */
  predicate Before(s: Step, t: Step) {
    match t
    case GenericArg(i) => s.GenericArg? && s.index < i
    case ShapeMember(i, _) => s.GenericArg? || (s.ShapeMember? && s.index < i)
    case FunctionParam(i) => s.FunctionParam? && s.index < i
    case FunctionReturn => s.FunctionParam?
    case _ => false
  }

  /** Nothing is wrong at t or anywhere behind it, as far as paths lead that avoid the open nodes. */
  ghost predicate Clear(g: Graph, t: TypeRef, open: set<nat>) {
    forall path | Follow(g, t, path).Some? && Avoids(g, t, path, open) ::
      && Grammatical(Layers(Follow(g, t, path).value))
      && (AtParam(path) ==> !TooDeepForParam(Layers(Follow(g, t, path).value)))
  }

  /** Every part searched before this one is clear, and no parameter among them is too deep. */
  ghost predicate ClearBefore(g: Graph, t: TypeRef, step: Step, open: set<nat>) {
    forall s | Before(s, step) && Take(g, t, s).Some? ::
      && Clear(g, Take(g, t, s).value, open)
      && (s.FunctionParam? ==> !TooDeepForParam(Layers(Take(g, t, s).value)))
  }

  function Opened(t: TypeRef, open: set<nat>): set<nat> {
    if t.At? then open + {t.node} else open
  }

  /** The path enters no node twice, and whatever the search looks at before the end of it is clear. The
      depth of a parameter is looked at after everything behind the parameter. */
  ghost predicate First(g: Graph, t: TypeRef, path: seq<Step>, open: set<nat>, deep: bool)
    decreases |path|
  {
    if path == [] then deep ==> Clear(g, t, open)
    else
      && Grammatical(Layers(t))
      && (t.At? ==> t.node !in open)
      && ClearBefore(g, t, path[0], Opened(t, open))
      && Take(g, t, path[0]).Some?
      && First(g, Take(g, t, path[0]).value, path[1..], Opened(t, open), deep)
  }

  lemma {:induction false} AvoidsFewer(g: Graph, t: TypeRef, path: seq<Step>, more: set<nat>, open: set<nat>)
    requires Avoids(g, t, path, more) && open <= more
    ensures Avoids(g, t, path, open)
    decreases |path|
  {
    if path != [] && Take(g, t, path[0]).Some? {
      AvoidsFewer(g, Take(g, t, path[0]).value, path[1..], more, open);
    }
  }

  lemma {:induction false} FirstAvoids(g: Graph, t: TypeRef, path: seq<Step>, open: set<nat>, deep: bool)
    requires First(g, t, path, open, deep)
    ensures Avoids(g, t, path, open)
    decreases |path|
  {
    if path != [] {
      var next := Take(g, t, path[0]).value;
      FirstAvoids(g, next, path[1..], Opened(t, open), deep);
      AvoidsFewer(g, next, path[1..], Opened(t, open), open);
    }
  }

  /** What is wrong at the end of a path. */
  predicate Broken(g: Graph, t: TypeRef, path: seq<Step>, deep: bool) {
    && Follow(g, t, path).Some?
    && var layers := Layers(Follow(g, t, path).value);
       if deep then Grammatical(layers) && TooDeepForParam(layers) && (path != [] ==> AtParam(path))
       else !Grammatical(layers)
  }

  lemma BrokenIsNotClear(g: Graph, t: TypeRef, path: seq<Step>, open: set<nat>, deep: bool)
    requires Broken(g, t, path, deep) && Avoids(g, t, path, open) && (deep ==> path != [])
    ensures !Clear(g, t, open)
  {
  }

  /** Steps from one place come in an order. */
  lemma StepsOrdered(g: Graph, t: TypeRef, a: Step, b: Step)
    requires Take(g, t, a).Some? && Take(g, t, b).Some?
    ensures a == b || Before(a, b) || Before(b, a)
  {
  }

  lemma EarlierStep(g: Graph, t: TypeRef, open: set<nat>, p: seq<Step>, dp: bool, q: seq<Step>, dq: bool)
    requires First(g, t, p, open, dp) && Broken(g, t, p, dp) && First(g, t, q, open, dq)
    requires p != [] && q != []
    ensures !Before(p[0], q[0])
  {
    if Before(p[0], q[0]) {
      var next := Take(g, t, p[0]).value;
      assert Clear(g, next, Opened(t, open));
      FirstAvoids(g, next, p[1..], Opened(t, open), dp);
      assert p[1..] != [] ==> p[1..][|p| - 2] == p[|p| - 1];
      if dp && p[1..] == [] {
        assert false;
      } else {
        BrokenIsNotClear(g, next, p[1..], Opened(t, open), dp);
      }
    }
  }

  lemma EndsFirst(g: Graph, t: TypeRef, open: set<nat>, dp: bool, q: seq<Step>, dq: bool)
    requires First(g, t, [], open, dp) && Broken(g, t, [], dp)
    requires First(g, t, q, open, dq) && Broken(g, t, q, dq)
    ensures q == []
  {
    if q != [] {
      FirstAvoids(g, t, q, open, dq);
      assert dp;
      BrokenIsNotClear(g, t, q, open, dq);
    }
  }

  lemma {:induction false} FirstPathUnique(g: Graph, t: TypeRef, open: set<nat>, p: seq<Step>, dp: bool, q: seq<Step>,
                                           dq: bool)
    requires First(g, t, p, open, dp) && Broken(g, t, p, dp)
    requires First(g, t, q, open, dq) && Broken(g, t, q, dq)
    ensures p == q && dp == dq
    decreases |p|
  {
    if p == [] {
      EndsFirst(g, t, open, dp, q, dq);
    } else if q == [] {
      EndsFirst(g, t, open, dq, p, dp);
    } else {
      EarlierStep(g, t, open, p, dp, q, dq);
      EarlierStep(g, t, open, q, dq, p, dp);
      StepsOrdered(g, t, p[0], q[0]);
      assert |p| > 1 ==> p[1..][|p| - 2] == p[|p| - 1];
      assert |q| > 1 ==> q[1..][|q| - 2] == q[|q| - 1];
      FirstPathUnique(g, Take(g, t, p[0]).value, Opened(t, open), p[1..], dp, q[1..], dq);
      assert p == [p[0]] + p[1..] && q == [q[0]] + q[1..];
    }
  }

  lemma ReportedUnique(layers: seq<Hat>, v: Violation, i: nat, j: nat, k: nat, l: nat)
    requires Reported(layers, v, i, j) && Reported(layers, v, k, l)
    ensures i == k && j == l
  {
  }

  /** The issue a search reports: justified, and the first in the order of the search. */
  ghost predicate IsFirstIssue(g: Graph, t: TypeRef, issue: Issue) {
    Justified(g, t, issue) && First(g, t, issue.path, {}, issue.violation.ParamHandleDepthForbidden?)
  }

  /** There is only one. */
  lemma FirstIssueUnique(g: Graph, t: TypeRef, x: Issue, y: Issue)
    requires IsFirstIssue(g, t, x) && IsFirstIssue(g, t, y)
    ensures x == y
  {
    FirstPathUnique(g, t, {}, x.path, x.violation.ParamHandleDepthForbidden?,
                    y.path, y.violation.ParamHandleDepthForbidden?);
    if !x.violation.ParamHandleDepthForbidden? {
      ReportedUnique(Layers(x.offending), x.violation, x.outer, x.inner, y.outer, y.inner);
    }
  }

  lemma FollowStep(g: Graph, t: TypeRef, step: Step, path: seq<Step>)
    requires Take(g, t, step).Some?
    ensures Follow(g, t, [step] + path) == Follow(g, Take(g, t, step).value, path)
  {
    assert ([step] + path)[1..] == path;
  }

  // ---------------------------------------------------------------- the search

  /** An issue found below a place that was reached along `path`. */
  ghost predicate FoundBelow(g: Graph, t: TypeRef, path: seq<Step>, open: set<nat>, issue: Issue) {
    && path <= issue.path
    && First(g, t, issue.path[|path|..], open, issue.violation.ParamHandleDepthForbidden?)
    && Follow(g, t, issue.path[|path|..]) == Some(issue.offending)
    && Faulty(issue, Layers(issue.offending))
  }

  lemma FoundAbove(g: Graph, t: TypeRef, step: Step, path: seq<Step>, open: set<nat>, issue: Issue)
    requires Grammatical(Layers(t)) && (t.At? ==> t.node !in open) && ClearBefore(g, t, step, Opened(t, open))
    requires Take(g, t, step).Some?
    requires FoundBelow(g, Take(g, t, step).value, path + [step], Opened(t, open), issue)
    ensures FoundBelow(g, t, path, open, issue)
  {
    var rest := issue.path[|path| + 1..];
    assert issue.path[|path|..] == [step] + rest;
    assert issue.path[..|path|] == (path + [step])[..|path|] == path;
    FollowStep(g, t, step, rest);
    assert ([step] + rest)[1..] == rest;
  }

  /** The parts of a node that come before one have been searched. */
  ghost predicate SeenBefore(g: Graph, visited: set<nat>, n: nat, step: Step)
    requires n in g
  {
    forall s | Before(s, step) && Child(g[n], s).Some? ::
      && Seen(g, visited, Child(g[n], s).value)
      && (s.FunctionParam? ==> !TooDeepForParam(Layers(Child(g[n], s).value)))
  }

  lemma SeenIsClear(g: Graph, visited: set<nat>, open: set<nat>, t: TypeRef)
    requires DoneBut(g, visited, open) && Seen(g, visited, t)
    ensures Clear(g, t, open)
  {
    forall path | Follow(g, t, path).Some? && Avoids(g, t, path, open)
      ensures Grammatical(Layers(Follow(g, t, path).value))
      ensures AtParam(path) ==> !TooDeepForParam(Layers(Follow(g, t, path).value))
    {
      SeenEverywhere(g, visited, open, t, path);
    }
  }

  lemma SeenIsClearBefore(g: Graph, visited: set<nat>, open: set<nat>, n: nat, step: Step)
    requires n in g && DoneBut(g, visited, open) && SeenBefore(g, visited, n, step)
    ensures ClearBefore(g, At(n), step, open)
  {
    forall s | Before(s, step) && Take(g, At(n), s).Some?
      ensures Clear(g, Take(g, At(n), s).value, open)
      ensures s.FunctionParam? ==> !TooDeepForParam(Layers(Take(g, At(n), s).value))
    {
      SeenIsClear(g, visited, open, Child(g[n], s).value);
    }
  }

  lemma ParamFirst(g: Graph, visited: set<nat>, open: set<nat>, n: nat, i: nat)
    requires n in g && n !in open && DoneBut(g, visited, open + {n}) && g[n].FunctionNode? && i < |g[n].params|
    requires SeenBefore(g, visited, n, FunctionParam(i)) && Seen(g, visited, g[n].params[i])
    ensures First(g, At(n), [FunctionParam(i)], open, true)
    ensures Follow(g, At(n), [FunctionParam(i)]) == Some(g[n].params[i])
  {
    SeenIsClearBefore(g, visited, open + {n}, n, FunctionParam(i));
    SeenIsClear(g, visited, open + {n}, g[n].params[i]);
    assert [FunctionParam(i)][1..] == [];
  }

  class Searcher {
    const graph: Graph
    var visited: set<nat>

    constructor (g: Graph)
      ensures graph == g && visited == {}
    {
      graph := g;
      visited := {};
    }

    ghost function Unvisited(): set<nat>
      reads this
    {
      graph.Keys - visited
    }

    method Find(t: TypeRef, path: seq<Step>, ghost open: set<nat>) returns (issue: Option<Issue>)
      requires Closed(graph) && Rooted(graph, t) && DoneBut(graph, visited, open)
      modifies this
      ensures old(visited) <= visited
      ensures issue.None? ==> Grown(graph, old(visited), visited) && Seen(graph, visited, t)
      ensures issue.Some? ==> FoundBelow(graph, t, path, open, issue.value)
      decreases Unvisited(), if t.Pointer? then 2 else 1
    {
      if t.Null? {
        return None;
      }
      var profile := Classify(t);
      if !profile.violation.NoViolation? {
        var outer, inner := ComputeLayerIndices(t, profile.violation);
        assert path[|path|..] == [];
        return Some(Issue(profile.violation, path, outer, inner, t));
      }
      if t.Pointer? {
        var current := t;
        while current.Pointer?
          invariant Soul(current) == Soul(t)
          decreases current
        {
          current := current.pointee;
        }
        if current.Null? {
          return None;
        }
        issue := Find(current, path + [Pointee], open);
        if issue.Some? {
          FoundAbove(graph, t, Pointee, path, open, issue.value);
        }
        return;
      }
      if t.node in visited {
        return None;
      }
      visited := visited + {t.node};
      issue := Enter(t.node, path, open);
    }

    /** The structural part of the search, for a node that was just marked as visited. */
    method Enter(n: nat, path: seq<Step>, ghost open: set<nat>) returns (issue: Option<Issue>)
      requires Closed(graph) && n in graph && n !in open && DoneBut(graph, visited, open + {n})
      modifies this
      ensures old(visited) <= visited
      ensures issue.None? ==> Grown(graph, old(visited), visited) && Done(graph, visited, n)
      ensures issue.Some? ==> FoundBelow(graph, At(n), path, open, issue.value)
      decreases Unvisited(), 10
    {
      match graph[n] {
        case Plain => issue := None;
        case ArrayNode(element) => issue := FindPart(n, ArrayElement, path, open);
        case SliceNode(element) => issue := FindPart(n, SliceElement, path, open);
        case ShapeNode(args, members) =>
          issue := FindArgs(n, path, open);
          if issue.None? {
            ghost var between := visited;
            issue := FindMembers(n, path, open);
            GrownIf(issue, old(visited), between, visited);
          }
        case FunctionNode(params, ret) =>
          issue := FindParams(n, path, open);
          if issue.None? {
            ghost var between := visited;
            issue := FindPart(n, FunctionReturn, path, open);
            GrownIf(issue, old(visited), between, visited);
          }
        case UninitNode(element) => issue := FindPart(n, UninitInner, path, open);
        case OutcomeNode(element) => issue := FindPart(n, OutcomePayload, path, open);
        case PlaceNode(element) => issue := FindPart(n, PlaceOutcomeItem, path, open);
      }
    }

    lemma GrownIf(issue: Option<Issue>, v1: set<nat>, v2: set<nat>, v3: set<nat>)
      requires Grown(graph, v1, v2) && (issue.None? ==> Grown(graph, v2, v3))
      ensures issue.None? ==> Grown(graph, v1, v3)
    {
      if issue.None? {
        GrownTrans(graph, v1, v2, v3);
      }
    }

    method FindPart(n: nat, step: Step, path: seq<Step>, ghost open: set<nat>) returns (issue: Option<Issue>)
      requires Closed(graph) && n in graph && Child(graph[n], step).Some?
      requires n !in open && DoneBut(graph, visited, open + {n}) && SeenBefore(graph, visited, n, step)
      modifies this
      ensures old(visited) <= visited
      ensures issue.None? ==> Grown(graph, old(visited), visited)
      ensures issue.None? ==> Seen(graph, visited, Child(graph[n], step).value)
      ensures issue.Some? ==> FoundBelow(graph, At(n), path, open, issue.value)
      decreases Unvisited(), 3
    {
      SeenIsClearBefore(graph, visited, open + {n}, n, step);
      issue := Find(Child(graph[n], step).value, path + [step], open + {n});
      if issue.Some? {
        FoundAbove(graph, At(n), step, path, open, issue.value);
      }
    }

    method FindArgs(n: nat, path: seq<Step>, ghost open: set<nat>) returns (issue: Option<Issue>)
      requires Closed(graph) && n in graph && graph[n].ShapeNode?
      requires n !in open && DoneBut(graph, visited, open + {n})
      modifies this
      ensures old(visited) <= visited
      ensures issue.None? ==> Grown(graph, old(visited), visited)
      ensures issue.None? ==> forall i | 0 <= i < |graph[n].args| :: Seen(graph, visited, graph[n].args[i])
      ensures issue.Some? ==> FoundBelow(graph, At(n), path, open, issue.value)
      decreases Unvisited(), 4
    {
      for i := 0 to |graph[n].args|
        invariant Grown(graph, old(visited), visited)
        invariant forall j | 0 <= j < i :: Seen(graph, visited, graph[n].args[j])
      {
        ghost var before := visited;
        issue := FindPart(n, GenericArg(i), path, open);
        if issue.Some? {
          return;
        }
        GrownTrans(graph, old(visited), before, visited);
      }
      issue := None;
    }

    method FindMembers(n: nat, path: seq<Step>, ghost open: set<nat>) returns (issue: Option<Issue>)
      requires Closed(graph) && n in graph && graph[n].ShapeNode?
      requires n !in open && DoneBut(graph, visited, open + {n})
      requires forall i | 0 <= i < |graph[n].args| :: Seen(graph, visited, graph[n].args[i])
      modifies this
      ensures old(visited) <= visited
      ensures issue.None? ==> Grown(graph, old(visited), visited)
      ensures issue.None? ==>
        forall i | 0 <= i < |graph[n].members| :: Seen(graph, visited, graph[n].members[i].resolved)
      ensures issue.Some? ==> FoundBelow(graph, At(n), path, open, issue.value)
      decreases Unvisited(), 4
    {
      for i := 0 to |graph[n].members|
        invariant Grown(graph, old(visited), visited)
        invariant forall j | 0 <= j < i :: Seen(graph, visited, graph[n].members[j].resolved)
      {
        if !graph[n].members[i].resolved.Null? {
          ghost var before := visited;
          issue := FindPart(n, ShapeMember(i, graph[n].members[i].name), path, open);
          if issue.Some? {
            return;
          }
          GrownTrans(graph, old(visited), before, visited);
        }
      }
      issue := None;
    }

    /** A parameter may be deeper than one layer only when it is raw all the way. */
    method ParamTooDeep(t: TypeRef) returns (deep: bool)
      ensures deep <==> TooDeepForParam(Layers(t))
    {
      deep := false;
      if t.Pointer? && t.pointee.Pointer? {
        var profile := Classify(t);
        deep := !(profile.rawDepth > 0 && !profile.crosses && profile.managedDepth == 0);
      }
    }

    method FindParams(n: nat, path: seq<Step>, ghost open: set<nat>) returns (issue: Option<Issue>)
      requires Closed(graph) && n in graph && graph[n].FunctionNode?
      requires n !in open && DoneBut(graph, visited, open + {n})
      modifies this
      ensures old(visited) <= visited
      ensures issue.None? ==> Grown(graph, old(visited), visited)
      ensures issue.None? ==> forall i | 0 <= i < |graph[n].params| ::
        Seen(graph, visited, graph[n].params[i]) && !TooDeepForParam(Layers(graph[n].params[i]))
      ensures issue.Some? ==> FoundBelow(graph, At(n), path, open, issue.value)
      decreases Unvisited(), 4
    {
      for i := 0 to |graph[n].params|
        invariant Grown(graph, old(visited), visited)
        invariant forall j | 0 <= j < i ::
          Seen(graph, visited, graph[n].params[j]) && !TooDeepForParam(Layers(graph[n].params[j]))
      {
        ghost var before := visited;
        issue := FindPart(n, FunctionParam(i), path, open);
        if issue.Some? {
          return;
        }
        GrownTrans(graph, old(visited), before, visited);
        var deep := ParamTooDeep(graph[n].params[i]);
        if deep {
          issue := Some(Issue(ParamHandleDepthForbidden, path + [FunctionParam(i)], 0, 1, graph[n].params[i]));
          ParamFirst(graph, visited, open, n, i);
          assert issue.value.path[|path|..] == [FunctionParam(i)];
          return;
        }
      }
      issue := None;
    }
  }

  /** Nothing is reported exactly when every place that a path reaches conforms; a report leads along
      its path to the place it names, and is the first in the order of the search. */
  method FindHandleGrammarIssue(g: Graph, t: TypeRef) returns (issue: Option<Issue>)
    requires Closed(g) && Rooted(g, t)
    ensures issue.None? <==> Conforms(g, t)
    ensures issue.Some? ==> IsFirstIssue(g, t, issue.value)
  {
    var searcher := new Searcher(g);
    issue := searcher.Find(t, [], {});
    if issue.None? {
      forall path | Follow(g, t, path).Some?
        ensures Seen(g, searcher.visited, Follow(g, t, path).value)
        ensures AtParam(path) ==> !TooDeepForParam(Layers(Follow(g, t, path).value))
      {
        AvoidsNone(g, t, path);
        SeenEverywhere(g, searcher.visited, {}, t, path);
      }
    } else {
      assert issue.value.path[0..] == issue.value.path;
    }
  }
}
