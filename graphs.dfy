/** The graph algorithms of the graph visualizer: depth-first and
    breadth-first traversal and Dijkstra's shortest paths over the graph
    read as undirected, and a depth-first topological sort over the graph
    read as directed. Nodes are numbered; each edge has two ends, a weight
    and an id. */
module GraphAlgorithms {
  import opened Common

  datatype Edge = Edge(from: nat, to: nat, weight: int, id: string)

  /** The same edge walked the other way, as the undirected lists store it. */
  function Flip(e: Edge): Edge {
    e.(from := e.to, to := e.from)
  }

  type Lists = map<nat, seq<Edge>>

  /** The list of a node: missing entries read as empty. */
  function Neighbours(adj: Lists, u: nat): seq<Edge> {
    if u in adj then adj[u] else []
  }

  /** One turn of the adjacency-list loop: open the lists of the ends that
      have none, then append the edge under its from end and, when the
      graph is read as undirected, the flipped edge under its to end. */
  function AddEdge(adj: Lists, e: Edge, undirected: bool): Lists {
    var a := if e.from in adj then adj else adj[e.from := []];
    var b := if undirected && e.to !in a then a[e.to := []] else a;
    var c := b[e.from := b[e.from] + [e]];
    if undirected then c[e.to := c[e.to] + [Flip(e)]] else c
  }

  /** Adding an edge appends it to the list of its from end and, when
      undirected, its flip to the list of its to end; other lists stay. */
  lemma AddEdgeLists(adj: Lists, e: Edge, undirected: bool, v: nat)
    ensures Neighbours(AddEdge(adj, e, undirected), v) ==
      Neighbours(adj, v) + (if v == e.from then [e] else []) + (if undirected && v == e.to then [Flip(e)] else [])
  {
  }

  /** The adjacency lists built from edges in order. */
  function AdjacencyOf(edges: seq<Edge>, undirected: bool): Lists {
    if edges == [] then map[] else AddEdge(AdjacencyOf(edges[..|edges| - 1], undirected), edges[|edges| - 1], undirected)
  }

  /** A list holds exactly the edges leaving its node: the input edges that
      start there and, when undirected, the flipped input edges that end
      there. */
  lemma {:induction false} AdjacencyEdges(edges: seq<Edge>, undirected: bool, u: nat, e: Edge)
    ensures e in Neighbours(AdjacencyOf(edges, undirected), u) <==>
      e.from == u && (e in edges || (undirected && Flip(e) in edges))
  {
    if edges != [] {
      var init := edges[..|edges| - 1];
      var last := edges[|edges| - 1];
      LastSplit(edges);
      AdjacencyEdges(init, undirected, u, e);
      AddEdgeLists(AdjacencyOf(init, undirected), last, undirected, u);
      assert e == Flip(last) <==> Flip(e) == last;
    }
  }

  /** The adjacency-list loop every algorithm starts with. */
  method BuildAdjacency(edges: seq<Edge>, undirected: bool) returns (adj: Lists)
    ensures adj == AdjacencyOf(edges, undirected)
  {
    adj := map[];
    for i := 0 to |edges|
      invariant adj == AdjacencyOf(edges[..i], undirected)
    {
      assert edges[..i + 1][..i] == edges[..i];
      adj := AddEdge(adj, edges[i], undirected);
    }
    assert edges[..|edges|] == edges;
  }

  /** The ends of the edges: every node an algorithm can reach through them. */
  ghost function Ends(edges: seq<Edge>): set<nat> {
    if edges == [] then {}
    else Ends(edges[..|edges| - 1]) + {edges[|edges| - 1].from, edges[|edges| - 1].to}
  }

  lemma {:induction false} EndsHold(edges: seq<Edge>, e: Edge)
    requires e in edges
    ensures e.from in Ends(edges) && e.to in Ends(edges)
  {
    var init := edges[..|edges| - 1];
    if e != edges[|edges| - 1] {
      LastSplit(edges);
      EndsHold(init, e);
    }
  }

  /** Every listed edge leads to an end of some input edge. */
  lemma NeighbourInEnds(edges: seq<Edge>, undirected: bool, u: nat, e: Edge)
    requires e in Neighbours(AdjacencyOf(edges, undirected), u)
    ensures e.to in Ends(edges)
  {
    AdjacencyEdges(edges, undirected, u, e);
    if e in edges {
      EndsHold(edges, e);
    } else {
      EndsHold(edges, Flip(e));
    }
  }

  /** Every listed edge leads into all. */
  ghost predicate LeadsWithin(adj: Lists, all: set<nat>) {
    forall u, e :: e in Neighbours(adj, u) ==> e.to in all
  }

  lemma AdjacencyWithin(edges: seq<Edge>, undirected: bool, extra: set<nat>)
    ensures LeadsWithin(AdjacencyOf(edges, undirected), Ends(edges) + extra)
  {
    forall u, e | e in Neighbours(AdjacencyOf(edges, undirected), u)
      ensures e.to in Ends(edges)
    {
      NeighbourInEnds(edges, undirected, u, e);
    }
  }

  // ---------------------------------------------------------------------
  // Reachability

  /** The far ends of es, in order. */
  function Targets(es: seq<Edge>): (t: seq<nat>)
    ensures |t| == |es| && forall i :: 0 <= i < |es| ==> t[i] == es[i].to
  {
    seq(|es|, i requires 0 <= i < |es| => es[i].to)
  }

  lemma TargetsHold(es: seq<Edge>, e: Edge)
    requires e in es
    ensures e.to in Targets(es)
  {
    var i :| 0 <= i < |es| && es[i] == e;
    assert Targets(es)[i] == e.to;
  }

  /** Some edge in the list of a leads to b. */
  predicate Arc(adj: Lists, a: nat, b: nat) {
    b in Targets(Neighbours(adj, a))
  }

  ghost predicate IsPath(adj: Lists, p: seq<nat>) {
    |p| > 0 && forall k :: 0 <= k < |p| - 1 ==> Arc(adj, p[k], p[k + 1])
  }

  /** b can be reached from a by following listed edges. */
  ghost predicate Reaches(adj: Lists, a: nat, b: nat) {
    exists p :: IsPath(adj, p) && p[0] == a && p[|p| - 1] == b
  }

  /** The far ends of the edges listed under the elements of v, in order. */
  function Successors(adj: Lists, v: seq<nat>): seq<nat> {
    if v == [] then [] else Successors(adj, v[..|v| - 1]) + Targets(Neighbours(adj, v[|v| - 1]))
  }

  lemma {:induction false} SuccessorsHold(adj: Lists, v: seq<nat>, j: nat, b: nat)
    requires j < |v| && Arc(adj, v[j], b)
    ensures b in Successors(adj, v)
  {
    if j < |v| - 1 {
      SuccessorsHold(adj, v[..|v| - 1], j, b);
    }
  }

  lemma {:induction false} SuccessorSource(adj: Lists, v: seq<nat>, b: nat) returns (j: nat)
    requires b in Successors(adj, v)
    ensures j < |v| && Arc(adj, v[j], b)
  {
    if b in Targets(Neighbours(adj, v[|v| - 1])) {
      j := |v| - 1;
    } else {
      j := SuccessorSource(adj, v[..|v| - 1], b);
    }
  }

  /** Every successor of an element of v is in v. */
  ghost predicate Closed(adj: Lists, v: seq<nat>) {
    forall b :: b in Successors(adj, v) ==> b in v
  }

  /** Every element of v after the first is a successor of the ones before it. */
  ghost predicate Grown(adj: Lists, v: seq<nat>)
    decreases |v|
  {
    |v| <= 1 || (Grown(adj, v[..|v| - 1]) && v[|v| - 1] in Successors(adj, v[..|v| - 1]))
  }

  lemma GrownAppend(adj: Lists, v: seq<nat>, x: nat)
    requires Grown(adj, v) && (v == [] || x in Successors(adj, v))
    ensures Grown(adj, v + [x])
  {
    assert (v + [x])[..|v|] == v;
  }

  lemma ClosedHoldsReachable(adj: Lists, v: seq<nat>, b: nat)
    requires |v| > 0 && Closed(adj, v) && Reaches(adj, v[0], b)
    ensures b in v
  {
    var p :| IsPath(adj, p) && p[0] == v[0] && p[|p| - 1] == b;
    var k := 0;
    while k < |p| - 1
      invariant 0 <= k < |p| && p[k] in v
    {
      var i :| 0 <= i < |v| && v[i] == p[k];
      SuccessorsHold(adj, v, i, p[k + 1]);
      k := k + 1;
    }
  }

  lemma {:induction false} GrownReachable(adj: Lists, v: seq<nat>, i: nat)
    requires Grown(adj, v) && i < |v|
    ensures Reaches(adj, v[0], v[i])
    decreases |v|
  {
    var w := v[..|v| - 1];
    if i == 0 {
      assert IsPath(adj, [v[0]]);
    } else if i < |v| - 1 {
      GrownReachable(adj, w, i);
      assert w[0] == v[0] && w[i] == v[i];
    } else {
      var j := SuccessorSource(adj, w, v[i]);
      GrownReachable(adj, w, j);
      var p :| IsPath(adj, p) && p[0] == v[0] && p[|p| - 1] == w[j];
      ExtendPath(adj, p, v[i]);
    }
  }

  /** A path followed by an arc from its end is a path. */
  lemma ExtendPath(adj: Lists, p: seq<nat>, b: nat)
    requires IsPath(adj, p) && Arc(adj, p[|p| - 1], b)
    ensures IsPath(adj, p + [b]) && Reaches(adj, p[0], b)
  {
    var q := p + [b];
    forall k | 0 <= k < |q| - 1
      ensures Arc(adj, q[k], q[k + 1])
    {
      if k < |p| - 1 {
        assert q[k] == p[k] && q[k + 1] == p[k + 1];
      }
    }
    assert q[0] == p[0] && q[|q| - 1] == b;
  }

  /** A closed sequence grown from its first element holds exactly the nodes
      reachable from that element. */
  lemma ReachableExactly(adj: Lists, v: seq<nat>)
    requires |v| > 0 && Closed(adj, v) && Grown(adj, v)
    ensures forall b :: b in v <==> Reaches(adj, v[0], b)
  {
    forall b
      ensures b in v <==> Reaches(adj, v[0], b)
    {
      if b in v {
        var i :| 0 <= i < |v| && v[i] == b;
        GrownReachable(adj, v, i);
      }
      if Reaches(adj, v[0], b) {
        ClosedHoldsReachable(adj, v, b);
      }
    }
  }

  // ---------------------------------------------------------------------
  // Step records

  /** The actions the steps record, with what the algorithms prove about. */
  datatype Action =
    | Start(node: nat)
    | Visit(node: nat)
    | Explore(edge: Edge)
    | Initialize(node: nat)
    | Select(node: nat, distance: int)
    | Relax(edge: Edge, distance: int)

  /** The nodes of the visit steps, in order. */
  function Visits(steps: seq<Action>): (v: seq<nat>)
    ensures |v| <= |steps|
  {
    if steps == [] then []
    else
      var last := steps[|steps| - 1];
      Visits(steps[..|steps| - 1]) + if last.Visit? then [last.node] else []
  }

  lemma VisitsAppend(steps: seq<Action>, more: seq<Action>)
    ensures Visits(steps + more) == Visits(steps) + Visits(more)
    decreases |more|
  {
    if more == [] {
      assert steps + more == steps;
    } else {
      var init := more[..|more| - 1];
      var last := more[|more| - 1];
      assert (steps + more)[..|steps + more| - 1] == steps + init;
      assert (steps + more)[|steps + more| - 1] == last;
      VisitsAppend(steps, init);
      var x := if last.Visit? then [last.node] else [];
      assert Visits(steps + more) == Visits(steps + init) + x;
      assert Visits(more) == Visits(init) + x;
      AppendAssociates(Visits(steps), Visits(init), x);
    }
  }

  /** The explore steps of es, in order. */
  function Explores(es: seq<Edge>): (s: seq<Action>)
    ensures |s| == |es| && forall i :: 0 <= i < |es| ==> s[i] == Explore(es[i])
  {
    seq(|es|, i requires 0 <= i < |es| => Explore(es[i]))
  }

  lemma {:induction false} ExploresNoVisits(es: seq<Edge>)
    ensures Visits(Explores(es)) == []
  {
    if es != [] {
      assert Explores(es)[..|es| - 1] == Explores(es[..|es| - 1]);
      ExploresNoVisits(es[..|es| - 1]);
    }
  }

  /** The edges of es whose far end is not in visited, in order. */
  function Unvisited(es: seq<Edge>, visited: set<nat>): (r: seq<Edge>)
    ensures forall e :: e in r <==> e in es && e.to !in visited
  {
    if es == [] then []
    else
      var rest := Unvisited(es[..|es| - 1], visited);
      var e := es[|es| - 1];
      assert es == es[..|es| - 1] + [e];
      rest + if e.to !in visited then [e] else []
  }

  /** s backwards. */
  function Reverse<T>(s: seq<T>): (r: seq<T>)
    ensures |r| == |s| && forall i :: 0 <= i < |s| ==> r[i] == s[|s| - 1 - i]
  {
    if s == [] then [] else [s[|s| - 1]] + Reverse(s[..|s| - 1])
  }

  lemma ReverseHolds<T>(s: seq<T>, x: T)
    ensures x in Reverse(s) <==> x in s
  {
    var r := Reverse(s);
    if x in s {
      var i :| 0 <= i < |s| && s[i] == x;
      assert r[|s| - 1 - i] == x;
    }
  }

  // ---------------------------------------------------------------------
  // Depth-first search (lines 52-118)

  /** The state of the depth-first loop: visits so far without repeats,
      each after the first a successor of earlier ones, every pending node
      a successor of a visited one, and every successor of a visited node
      visited or pending. */
  ghost predicate DfsState(adj: Lists, start: nat, all: set<nat>, visited: set<nat>, stack: seq<nat>, order: seq<nat>) {
    visited <= all && (forall k :: 0 <= k < |stack| ==> stack[k] in all)
    && Distinct(order) && (forall x :: x in visited <==> x in order)
    && (order == [] ==> stack == [start])
    && (order != [] ==> order[0] == start && forall k :: 0 <= k < |stack| ==> stack[k] in Successors(adj, order))
    && Grown(adj, order)
    && forall b :: b in Successors(adj, order) ==> b in visited || b in stack
  }

  /** Depth-first traversal from start: the nodes visited, in the order of
      the visit steps, are exactly the nodes reachable from start, each
      visited once. */
  method Dfs(edges: seq<Edge>, start: nat) returns (steps: seq<Action>)
    ensures |steps| > 0 && steps[0] == Start(start)
    ensures |Visits(steps)| > 0 && Visits(steps)[0] == start && Distinct(Visits(steps))
    ensures forall b :: b in Visits(steps) <==> Reaches(AdjacencyOf(edges, true), start, b)
  {
    var adj := BuildAdjacency(edges, true);
    ghost var all := Ends(edges) + {start};
    AdjacencyWithin(edges, true, {start});
    var visited: set<nat> := {};
    var stack: seq<nat> := [start];
    ghost var order: seq<nat> := [];
    steps := [Start(start)];
    while |stack| > 0
      invariant DfsState(adj, start, all, visited, stack, order)
      invariant |steps| > 0 && steps[0] == Start(start) && Visits(steps) == order
      invariant |stack| == 0 ==> order != []
      decreases |all - visited|, |stack|
    {
      visited, stack, order, steps := DfsRound(adj, start, all, visited, stack, order, steps);
    }
    ReachableExactly(adj, order);
  }

  /** One turn of the depth-first loop: pop a node; skip it when visited,
      else visit it and push its unvisited neighbours in reverse order. */
  method DfsRound(adj: Lists, start: nat, ghost all: set<nat>, visited: set<nat>, stack: seq<nat>,
                  ghost order: seq<nat>, steps: seq<Action>)
    returns (visited': set<nat>, stack': seq<nat>, ghost order': seq<nat>, steps': seq<Action>)
    requires LeadsWithin(adj, all) && |stack| > 0
    requires DfsState(adj, start, all, visited, stack, order)
    requires |steps| > 0 && steps[0] == Start(start) && Visits(steps) == order
    ensures DfsState(adj, start, all, visited', stack', order') && order' != []
    ensures |steps'| > 0 && steps'[0] == Start(start) && Visits(steps') == order'
    ensures |all - visited'| < |all - visited| || (|all - visited'| == |all - visited| && |stack'| < |stack|)
  {
    var current := stack[|stack| - 1];
    stack' := stack[..|stack| - 1];
    LastSplit(stack);
    if current in visited {
      DfsSkip(adj, start, all, visited, stack', order, current);
      visited', order', steps' := visited, order, steps;
      return;
    }
    visited' := visited + {current};
    FewerLeft(all, visited, current);
    order' := order + [current];
    VisitsAppend(steps, [Visit(current)]);
    steps' := steps + [Visit(current)];
    var unvisited := Reverse(Unvisited(Neighbours(adj, current), visited'));
    PushedTargets(adj, all, current, visited', unvisited);
    DfsVisited(adj, start, all, visited, stack', order, current, Targets(unvisited));
    VisitsAppend(steps', Explores(unvisited));
    ExploresNoVisits(unvisited);
    stack', steps' := PushUnvisited(stack', steps', unvisited, visited');
  }

  /** Marking a node of all as visited leaves fewer nodes of all unvisited. */
  lemma FewerLeft(all: set<nat>, visited: set<nat>, x: nat)
    requires x in all && x !in visited
    ensures |all - (visited + {x})| < |all - visited|
  {
    assert all - visited == (all - (visited + {x})) + {x};
  }

  /** Popping a visited node keeps the loop state. */
  lemma DfsSkip(adj: Lists, start: nat, all: set<nat>, visited: set<nat>, stack: seq<nat>, order: seq<nat>, current: nat)
    requires DfsState(adj, start, all, visited, stack + [current], order) && current in visited
    ensures DfsState(adj, start, all, visited, stack, order) && order != []
  {
    assert forall k :: 0 <= k < |stack| ==> stack[k] == (stack + [current])[k];
  }

  /** The edges pushed after a visit lead to unvisited nodes of all, and
      every unvisited far end of a listed edge is among them. */
  lemma PushedTargets(adj: Lists, all: set<nat>, current: nat, visited: set<nat>, unvisited: seq<Edge>)
    requires LeadsWithin(adj, all)
    requires unvisited == Reverse(Unvisited(Neighbours(adj, current), visited))
    ensures forall e :: e in unvisited ==> e.to !in visited
    ensures forall b :: b in Targets(unvisited) ==> b in all && b in Targets(Neighbours(adj, current))
    ensures forall b :: b in Targets(Neighbours(adj, current)) && b !in visited ==> b in Targets(unvisited)
  {
    var es := Unvisited(Neighbours(adj, current), visited);
    forall e | e in unvisited
      ensures e.to !in visited && e.to in Targets(Neighbours(adj, current)) && e.to in all
    {
      ReverseHolds(es, e);
      TargetsHold(Neighbours(adj, current), e);
    }
    forall b | b in Targets(unvisited)
      ensures b in all && b in Targets(Neighbours(adj, current))
    {
      var i :| 0 <= i < |unvisited| && Targets(unvisited)[i] == b;
      assert unvisited[i] in unvisited;
    }
    forall b | b in Targets(Neighbours(adj, current)) && b !in visited
      ensures b in Targets(unvisited)
    {
      var i :| 0 <= i < |Neighbours(adj, current)| && Targets(Neighbours(adj, current))[i] == b;
      var e := Neighbours(adj, current)[i];
      ReverseHolds(es, e);
      TargetsHold(unvisited, e);
    }
  }

  /** Visiting an unvisited popped node and pushing the unvisited far ends
      of its edges restores the loop state. */
  lemma DfsVisited(adj: Lists, start: nat, all: set<nat>, visited: set<nat>, stack: seq<nat>,
                   order: seq<nat>, current: nat, pushed: seq<nat>)
    requires DfsState(adj, start, all, visited, stack + [current], order) && current !in visited
    requires forall b :: b in pushed ==> b in all && b in Targets(Neighbours(adj, current))
    requires forall b :: b in Targets(Neighbours(adj, current)) && b !in visited + {current} ==> b in pushed
    ensures DfsState(adj, start, all, visited + {current}, stack + pushed, order + [current])
  {
    var order' := order + [current];
    var s := stack + pushed;
    var nexts := Targets(Neighbours(adj, current));
    assert Successors(adj, order') == Successors(adj, order) + nexts by {
      assert order'[..|order|] == order;
    }
    assert forall k :: 0 <= k < |stack| ==> stack[k] == (stack + [current])[k];
    if order != [] {
      assert current == (stack + [current])[|stack|];
    }
    GrownAppend(adj, order, current);
    forall k | |stack| <= k < |s|
      ensures s[k] in all && s[k] in nexts
    {
      assert s[k] == pushed[k - |stack|];
    }
  }

  /** Pushes the far end of every edge of es that is still unvisited,
      recording an explore step for each. */
  method PushUnvisited(stack: seq<nat>, steps: seq<Action>, es: seq<Edge>, visited: set<nat>)
    returns (stack': seq<nat>, steps': seq<Action>)
    requires forall e :: e in es ==> e.to !in visited
    ensures stack' == stack + Targets(es) && steps' == steps + Explores(es)
  {
    stack', steps' := stack, steps;
    for k := 0 to |es|
      invariant stack' == stack + Targets(es[..k]) && steps' == steps + Explores(es[..k])
    {
      var e := es[k];
      assert es[..k + 1] == es[..k] + [e];
      if e.to !in visited {
        stack' := stack' + [e.to];
        steps' := steps' + [Explore(e)];
      }
    }
    assert es[..|es|] == es;
  }

  // ---------------------------------------------------------------------
  // Breadth-first search (lines 121-186)

  /** The far ends of the explore steps, in order. */
  function Arrivals(steps: seq<Action>): (v: seq<nat>)
    ensures |v| <= |steps|
  {
    if steps == [] then []
    else
      var last := steps[|steps| - 1];
      Arrivals(steps[..|steps| - 1]) + if last.Explore? then [last.edge.to] else []
  }

  lemma ArrivalsAppend(steps: seq<Action>, more: seq<Action>)
    ensures Arrivals(steps + more) == Arrivals(steps) + Arrivals(more)
    decreases |more|
  {
    if more == [] {
      assert steps + more == steps;
    } else {
      var init := more[..|more| - 1];
      var last := more[|more| - 1];
      assert (steps + more)[..|steps + more| - 1] == steps + init;
      assert (steps + more)[|steps + more| - 1] == last;
      ArrivalsAppend(steps, init);
      var x := if last.Explore? then [last.edge.to] else [];
      assert Arrivals(steps + more) == Arrivals(steps + init) + x;
      assert Arrivals(more) == Arrivals(init) + x;
      AppendAssociates(Arrivals(steps), Arrivals(init), x);
    }
  }

  lemma {:induction false} ExploresArrive(es: seq<Edge>)
    ensures Arrivals(Explores(es)) == Targets(es)
  {
    if es != [] {
      assert Explores(es)[..|es| - 1] == Explores(es[..|es| - 1]);
      assert Targets(es) == Targets(es[..|es| - 1]) + [es[|es| - 1].to];
      ExploresArrive(es[..|es| - 1]);
    }
  }

  /** The edges of es that reach a node first, scanning es in order and
      marking each far end as it is reached, starting from visited. */
  function Enqueues(es: seq<Edge>, visited: set<nat>): seq<Edge>
    decreases |es|
  {
    if es == [] then []
    else if es[0].to in visited then Enqueues(es[1..], visited)
    else [es[0]] + Enqueues(es[1..], visited + {es[0].to})
  }

  /** Each far end reached by the scan is new, reached once, and every
      new far end of es is reached. */
  lemma {:induction false} EnqueuesHold(es: seq<Edge>, visited: set<nat>)
    ensures forall b :: b in Targets(Enqueues(es, visited)) ==> b !in visited && b in Targets(es)
    ensures forall b :: b in Targets(es) && b !in visited ==> b in Targets(Enqueues(es, visited))
    ensures Distinct(Targets(Enqueues(es, visited)))
    decreases |es|
  {
    if es != [] {
      var e := es[0];
      assert Targets(es) == [e.to] + Targets(es[1..]);
      if e.to in visited {
        EnqueuesHold(es[1..], visited);
      } else {
        var rest := Enqueues(es[1..], visited + {e.to});
        EnqueuesHold(es[1..], visited + {e.to});
        assert Targets([e] + rest) == [e.to] + Targets(rest);
        forall i, j | 0 <= i < j < |[e.to] + Targets(rest)|
          ensures ([e.to] + Targets(rest))[i] != ([e.to] + Targets(rest))[j]
        {
          if i == 0 {
            assert ([e.to] + Targets(rest))[j] in Targets(rest);
          }
        }
      }
    }
  }

  /** The inner loop of a breadth-first round: for each edge of es in
      order whose far end is unvisited, mark it, enqueue it and record an
      explore step. */
  method EnqueueNew(visited: set<nat>, queue: seq<nat>, steps: seq<Action>, es: seq<Edge>)
    returns (visited': set<nat>, queue': seq<nat>, steps': seq<Action>)
    ensures queue' == queue + Targets(Enqueues(es, visited))
    ensures steps' == steps + Explores(Enqueues(es, visited))
    ensures forall x :: x in visited' <==> x in visited || x in Targets(Enqueues(es, visited))
  {
    visited', queue', steps' := visited, queue, steps;
    for k := 0 to |es|
      invariant queue' + Targets(Enqueues(es[k..], visited')) == queue + Targets(Enqueues(es, visited))
      invariant steps' + Explores(Enqueues(es[k..], visited')) == steps + Explores(Enqueues(es, visited))
      invariant forall x :: x in visited' || x in Targets(Enqueues(es[k..], visited')) <==>
        x in visited || x in Targets(Enqueues(es, visited))
    {
      var e := es[k];
      EnqueuesStep(es, k, visited');
      if e.to !in visited' {
        var rest := Enqueues(es[k + 1..], visited' + {e.to});
        ConsTargets(e, rest);
        AppendAssociates(queue', [e.to], Targets(rest));
        AppendAssociates(steps', [Explore(e)], Explores(rest));
        visited' := visited' + {e.to};
        queue' := queue' + [e.to];
        steps' := steps' + [Explore(e)];
      }
    }
  }

  /** One scanned edge: skipped when its far end is marked, else reached. */
  lemma EnqueuesStep(es: seq<Edge>, k: nat, visited: set<nat>)
    requires k < |es|
    ensures es[k].to in visited ==> Enqueues(es[k..], visited) == Enqueues(es[k + 1..], visited)
    ensures es[k].to !in visited ==>
      Enqueues(es[k..], visited) == [es[k]] + Enqueues(es[k + 1..], visited + {es[k].to})
  {
    assert es[k..][1..] == es[k + 1..];
  }

  lemma ConsTargets(e: Edge, rest: seq<Edge>)
    ensures Targets([e] + rest) == [e.to] + Targets(rest)
    ensures Explores([e] + rest) == [Explore(e)] + Explores(rest)
  {
  }

  /** The state of the breadth-first loop: the dequeued nodes followed by
      the queue are the marked nodes, without repeats, first start, each
      later one a successor of earlier ones; every successor of a dequeued
      node is marked. */
  ghost predicate BfsState(adj: Lists, start: nat, all: set<nat>, visited: set<nat>, queue: seq<nat>, order: seq<nat>) {
    visited <= all
    && |order + queue| > 0 && (order + queue)[0] == start
    && Distinct(order + queue) && (forall x :: x in visited <==> x in order + queue)
    && Grown(adj, order + queue)
    && forall b :: b in Successors(adj, order) ==> b in visited
  }

  /** Breadth-first traversal from start: the nodes visited are exactly
      the nodes reachable from start, each visited once, in the order in
      which they were put in the queue. */
  method Bfs(edges: seq<Edge>, start: nat) returns (steps: seq<Action>)
    ensures |steps| > 0 && steps[0] == Start(start)
    ensures Visits(steps) == [start] + Arrivals(steps) && Distinct(Visits(steps))
    ensures forall b :: b in Visits(steps) <==> Reaches(AdjacencyOf(edges, true), start, b)
  {
    var adj := BuildAdjacency(edges, true);
    ghost var all := Ends(edges) + {start};
    AdjacencyWithin(edges, true, {start});
    var visited: set<nat> := {start};
    var queue: seq<nat> := [start];
    ghost var order: seq<nat> := [];
    steps := [Start(start)];
    while |queue| > 0
      invariant BfsState(adj, start, all, visited, queue, order)
      invariant |steps| > 0 && steps[0] == Start(start)
      invariant Visits(steps) == order && [start] + Arrivals(steps) == order + queue
      decreases |all - visited|, |queue|
    {
      visited, queue, order, steps := BfsRound(adj, start, all, visited, queue, order, steps);
    }
    assert order + queue == order;
    ReachableExactly(adj, order);
  }

  /** One turn of the breadth-first loop: dequeue a node, visit it, and
      enqueue the unmarked far ends of its edges. */
  method BfsRound(adj: Lists, start: nat, ghost all: set<nat>, visited: set<nat>, queue: seq<nat>,
                  ghost order: seq<nat>, steps: seq<Action>)
    returns (visited': set<nat>, queue': seq<nat>, ghost order': seq<nat>, steps': seq<Action>)
    requires LeadsWithin(adj, all) && |queue| > 0
    requires BfsState(adj, start, all, visited, queue, order)
    requires |steps| > 0 && steps[0] == Start(start)
    requires Visits(steps) == order && [start] + Arrivals(steps) == order + queue
    ensures BfsState(adj, start, all, visited', queue', order')
    ensures |steps'| > 0 && steps'[0] == Start(start)
    ensures Visits(steps') == order' && [start] + Arrivals(steps') == order' + queue'
    ensures |all - visited'| < |all - visited| || (|all - visited'| == |all - visited| && |queue'| < |queue|)
  {
    var current := queue[0];
    var es := Neighbours(adj, current);
    ghost var pushed := Enqueues(es, visited);
    order' := order + [current];
    visited', queue', steps' := EnqueueNew(visited, queue[1..], steps + [Visit(current)], es);
    EnqueuesHold(es, visited);
    BfsPushed(adj, all, current, visited, Targets(pushed));
    assert queue == [current] + queue[1..];
    BfsVisited(adj, start, all, visited, visited', queue[1..], order, current, Targets(pushed));
    BfsRecord(start, steps, order, queue, pushed);
    BfsFewer(all, visited, visited', Targets(pushed));
  }

  /** The steps of a breadth-first round record the visit of the dequeued
      node and the arrival of each enqueued one. */
  lemma BfsRecord(start: nat, steps: seq<Action>, order: seq<nat>, queue: seq<nat>, pushed: seq<Edge>)
    requires |queue| > 0 && Visits(steps) == order && [start] + Arrivals(steps) == order + queue
    ensures Visits(steps + [Visit(queue[0])] + Explores(pushed)) == order + [queue[0]]
    ensures [start] + Arrivals(steps + [Visit(queue[0])] + Explores(pushed)) ==
      (order + [queue[0]]) + (queue[1..] + Targets(pushed))
  {
    var current := queue[0];
    var before := steps + [Visit(current)];
    VisitStep(steps, current);
    BfsSteps(before, pushed);
    assert order + queue == (order + [current]) + queue[1..];
    AppendAssociates([start], Arrivals(before), Targets(pushed));
    AppendAssociates(order + [current], queue[1..], Targets(pushed));
  }

  /** A visit step adds its node to the visits and no arrival. */
  lemma VisitStep(steps: seq<Action>, x: nat)
    ensures Visits(steps + [Visit(x)]) == Visits(steps) + [x]
    ensures Arrivals(steps + [Visit(x)]) == Arrivals(steps)
  {
    assert (steps + [Visit(x)])[..|steps|] == steps;
  }

  /** Recording the explore steps of a visit adds no visits and adds the
      far ends of the explored edges as arrivals. */
  lemma BfsSteps(steps: seq<Action>, es: seq<Edge>)
    ensures Visits(steps + Explores(es)) == Visits(steps)
    ensures Arrivals(steps + Explores(es)) == Arrivals(steps) + Targets(es)
  {
    VisitsAppend(steps, Explores(es));
    ExploresNoVisits(es);
    ArrivalsAppend(steps, Explores(es));
    ExploresArrive(es);
  }

  /** Marking at least one new node of all leaves fewer nodes unmarked. */
  lemma BfsFewer(all: set<nat>, visited: set<nat>, visited': set<nat>, pushed: seq<nat>)
    requires forall b :: b in pushed ==> b in all && b !in visited
    requires forall x :: x in visited' <==> x in visited || x in pushed
    ensures pushed == [] ==> visited' == visited
    ensures pushed != [] ==> |all - visited'| < |all - visited|
  {
    if pushed != [] {
      var x := pushed[0];
      assert x in pushed;
      FewerLeft(all, visited, x);
      var smaller := all - (visited + {x});
      assert all - visited' <= smaller;
      assert smaller == (all - visited') + (smaller - (all - visited'));
    }
  }

  /** The nodes a visit enqueues are nodes of all. */
  lemma BfsPushed(adj: Lists, all: set<nat>, current: nat, visited: set<nat>, pushed: seq<nat>)
    requires LeadsWithin(adj, all)
    requires forall b :: b in pushed ==> b in Targets(Neighbours(adj, current))
    ensures forall b :: b in pushed ==> b in all
  {
    forall b | b in pushed
      ensures b in all
    {
      var i :| 0 <= i < |Neighbours(adj, current)| && Targets(Neighbours(adj, current))[i] == b;
      assert Neighbours(adj, current)[i] in Neighbours(adj, current);
    }
  }

  /** Dequeuing current and enqueuing the new far ends of its edges keeps
      the breadth-first state. */
  lemma BfsVisited(adj: Lists, start: nat, all: set<nat>, visited: set<nat>, visited': set<nat>,
                   queue: seq<nat>, order: seq<nat>, current: nat, pushed: seq<nat>)
    requires BfsState(adj, start, all, visited, [current] + queue, order)
    requires Distinct(pushed)
    requires forall b :: b in pushed ==> b in all && b !in visited && b in Targets(Neighbours(adj, current))
    requires forall b :: b in Targets(Neighbours(adj, current)) && b !in visited ==> b in pushed
    requires forall x :: x in visited' <==> x in visited || x in pushed
    ensures BfsState(adj, start, all, visited', queue + pushed, order + [current])
  {
    var w := order + ([current] + queue);
    var order' := order + [current];
    assert order' + (queue + pushed) == w + pushed;
    SuccessorsAppend(adj, order, current);
    assert w[..|order'|] == order';
    GrownExtend(adj, w, order', pushed);
    DistinctAppend(w, pushed);
  }

  /** The successors of v + [x] are those of v followed by the far ends of
      the edges of x. */
  lemma SuccessorsAppend(adj: Lists, v: seq<nat>, x: nat)
    ensures Successors(adj, v + [x]) == Successors(adj, v) + Targets(Neighbours(adj, x))
  {
    assert (v + [x])[..|v|] == v;
  }

  /** b is still a successor of a sequence that extends the one it follows. */
  lemma SuccessorsPrefix(adj: Lists, u: seq<nat>, v: seq<nat>, b: nat)
    requires |u| <= |v| && v[..|u|] == u && b in Successors(adj, u)
    ensures b in Successors(adj, v)
  {
    var j := SuccessorSource(adj, u, b);
    assert v[j] == u[j];
    SuccessorsHold(adj, v, j, b);
  }

  /** Appending successors of a prefix keeps a sequence grown. */
  lemma {:induction false} GrownExtend(adj: Lists, w: seq<nat>, u: seq<nat>, pushed: seq<nat>)
    requires Grown(adj, w) && 0 < |u| <= |w| && w[..|u|] == u
    requires forall b :: b in pushed ==> b in Successors(adj, u)
    ensures Grown(adj, w + pushed)
    decreases |pushed|
  {
    if pushed == [] {
      assert w + pushed == w;
    } else {
      var init := pushed[..|pushed| - 1];
      var last := pushed[|pushed| - 1];
      GrownExtend(adj, w, u, init);
      assert (w + init)[..|u|] == u;
      SuccessorsPrefix(adj, u, w + init, last);
      GrownAppend(adj, w + init, last);
      LastSplit(pushed);
      AppendAssociates(w, init, [last]);
    }
  }

  /** Two sequences without repeats and without common elements join into one. */
  lemma DistinctAppend(a: seq<nat>, b: seq<nat>)
    requires Distinct(a) && Distinct(b) && forall x :: x in b ==> x !in a
    ensures Distinct(a + b)
  {
    forall i, j | 0 <= i < j < |a + b|
      ensures (a + b)[i] != (a + b)[j]
    {
      if j < |a| {
        assert (a + b)[i] == a[i] && (a + b)[j] == a[j];
      } else if i < |a| {
        assert (a + b)[i] == a[i] && a[i] in a;
        assert (a + b)[j] == b[j - |a|] && b[j - |a|] in b;
      } else {
        assert (a + b)[i] == b[i - |a|] && (a + b)[j] == b[j - |a|];
      }
    }
  }

  // ---------------------------------------------------------------------
  // Dijkstra's shortest paths (lines 189-271)

  /** A tentative distance: a number or infinity. */
  datatype Dist = Fin(value: int) | Inf

  /** a < b, reading Inf as infinity: nothing is below Inf but a number. */
  predicate Below(a: Dist, b: Dist) {
    a.Fin? && (b.Inf? || a.value < b.value)
  }

  /** a <= b, reading Inf as infinity. */
  predicate AtMost(a: Dist, b: Dist) {
    b.Inf? || (a.Fin? && a.value <= b.value)
  }

  /** The elements of s in the order of their first occurrence: the key
      order of a map filled from s. */
  function FirstOccurrences(s: seq<nat>): seq<nat> {
    if s == [] then []
    else
      var r := FirstOccurrences(s[..|s| - 1]);
      if s[|s| - 1] in r then r else r + [s[|s| - 1]]
  }

  lemma {:induction false} FirstOccurrencesHold(s: seq<nat>)
    ensures Distinct(FirstOccurrences(s)) && |FirstOccurrences(s)| <= |s|
    ensures forall x :: x in FirstOccurrences(s) <==> x in s
  {
    if s != [] {
      var r := FirstOccurrences(s[..|s| - 1]);
      var x := s[|s| - 1];
      FirstOccurrencesHold(s[..|s| - 1]);
      LastSplit(s);
      if x !in r {
        forall i, j | 0 <= i < j < |r + [x]|
          ensures (r + [x])[i] != (r + [x])[j]
        {
          if j == |r| {
            assert (r + [x])[i] == r[i] && r[i] in r;
          } else {
            assert (r + [x])[i] == r[i] && (r + [x])[j] == r[j];
          }
        }
      }
    }
  }

  /** The initial distances: 0 for start, infinity for every other node,
      with the node ids as keys in the order they first occur. */
  method InitDistances(ids: seq<nat>, start: nat) returns (keys: seq<nat>, dist: map<nat, Dist>)
    ensures keys == FirstOccurrences(ids)
    ensures forall x :: x in dist <==> x in ids
    ensures forall x :: x in dist ==> dist[x] == if x == start then Fin(0) else Inf
  {
    keys, dist := [], map[];
    for i := 0 to |ids|
      invariant keys == FirstOccurrences(ids[..i])
      invariant forall x :: x in dist <==> x in ids[..i]
      invariant forall x :: x in dist ==> dist[x] == if x == start then Fin(0) else Inf
    {
      var id := ids[i];
      assert ids[..i + 1] == ids[..i] + [id];
      FirstOccurrencesHold(ids[..i]);
      if id !in dist {
        keys := keys + [id];
      }
      dist := dist[id := if id == start then Fin(0) else Inf];
    }
    assert ids[..|ids|] == ids;
  }

  /** The scan for the closest unvisited node: the first key, in key
      order, whose distance is strictly below every earlier candidate, or
      -1 when no unvisited key has a finite distance. */
  method SelectMin(keys: seq<nat>, dist: map<nat, Dist>, visited: set<nat>) returns (current: int, least: Dist)
    requires forall k :: k in keys ==> k in dist
    ensures current == -1 <==> least == Inf
    ensures current == -1 ==> forall k :: k in keys && k !in visited ==> dist[k] == Inf
    ensures current != -1 ==> 0 <= current && current in keys && current !in visited && dist[current] == least
    ensures current != -1 ==> forall k :: k in keys && k !in visited ==> AtMost(least, dist[k])
    ensures current != -1 ==> forall j :: 0 <= j < IndexOf(keys, current) && keys[j] !in visited ==> Below(least, dist[keys[j]])
  {
    current, least := -1, Inf;
    ghost var at := 0;
    for i := 0 to |keys|
      invariant current == -1 <==> least == Inf
      invariant current == -1 ==> forall j :: 0 <= j < i && keys[j] !in visited ==> dist[keys[j]] == Inf
      invariant current != -1 ==> 0 <= at < i && keys[at] == current && current !in visited && dist[current] == least
      invariant current != -1 ==> forall j :: 0 <= j < i && keys[j] !in visited ==> AtMost(least, dist[keys[j]])
      invariant current != -1 ==> forall j :: 0 <= j < at && keys[j] !in visited ==> Below(least, dist[keys[j]])
    {
      var k := keys[i];
      if k !in visited && Below(dist[k], least) {
        current, least, at := k, dist[k], i;
      }
    }
    if current != -1 {
      assert keys[at] == current;
      assert IndexOf(keys, current) <= at;
    }
  }

  /** The weights of the edges of es that end at v, in order. */
  function Weights(es: seq<Edge>, v: nat): seq<int> {
    if es == [] then [] else (if es[0].to == v then [es[0].weight] else []) + Weights(es[1..], v)
  }

  /** The distances, parents and steps the relaxation loop updates. */
  datatype Tables = Tables(dist: map<nat, Dist>, parents: map<nat, nat>, steps: seq<Action>)

  /** One relaxation: an edge to an unvisited node with a distance whose
      far end gets strictly closer through current (at distance d) lowers
      that distance, makes current its parent and records the step. */
  function RelaxOne(t: Tables, visited: set<nat>, current: nat, d: int, e: Edge): Tables {
    if e.to !in visited && e.to in t.dist && Below(Fin(d + e.weight), t.dist[e.to]) then
      Tables(t.dist[e.to := Fin(d + e.weight)], t.parents[e.to := current], t.steps + [Relax(e, d + e.weight)])
    else t
  }

  /** The relaxations over the edges of es, in order. */
  function Relaxation(t: Tables, visited: set<nat>, current: nat, d: int, es: seq<Edge>): Tables
    decreases |es|
  {
    if es == [] then t else Relaxation(RelaxOne(t, visited, current, d, es[0]), visited, current, d, es[1..])
  }

  /** Relaxation keeps the keys of the distances and gives parents only
      to keys. */
  lemma {:induction false} RelaxationKeys(t: Tables, visited: set<nat>, current: nat, d: int, es: seq<Edge>)
    ensures forall v :: v in Relaxation(t, visited, current, d, es).dist <==> v in t.dist
    ensures forall v :: v in Relaxation(t, visited, current, d, es).parents ==> v in t.parents || v in t.dist
    decreases |es|
  {
    if es != [] {
      RelaxationKeys(RelaxOne(t, visited, current, d, es[0]), visited, current, d, es[1..]);
    }
  }

  /** Relaxation never raises the distance of a node and leaves visited
      nodes alone; a node either keeps its distance and parent, or is an
      unvisited node whose distance is now d plus the weight of an edge of
      es to it, with current as its parent. */
  lemma {:induction false} RelaxationAt(t: Tables, visited: set<nat>, current: nat, d: int, es: seq<Edge>, v: nat)
    requires v in t.dist
    ensures v in Relaxation(t, visited, current, d, es).dist
    ensures AtMost(Relaxation(t, visited, current, d, es).dist[v], t.dist[v])
    ensures v in visited ==> Relaxation(t, visited, current, d, es).dist[v] == t.dist[v]
    ensures Kept(t, Relaxation(t, visited, current, d, es), v) ||
      Reparented(Relaxation(t, visited, current, d, es), visited, current, d, es, v)
    decreases |es|
  {
    if es != [] {
      var t' := RelaxOne(t, visited, current, d, es[0]);
      var out := Relaxation(t', visited, current, d, es[1..]);
      RelaxationAt(t', visited, current, d, es[1..], v);
      assert Weights(es, v) == (if es[0].to == v then [es[0].weight] else []) + Weights(es[1..], v);
      if v == es[0].to && t' != t {
        assert Reparented(t', visited, current, d, es, v);
      }
    }
  }

  /** After relaxation no edge of es to an unvisited node leads to a
      shorter distance through current. */
  lemma {:induction false} RelaxationTight(t: Tables, visited: set<nat>, current: nat, d: int, es: seq<Edge>)
    ensures forall e :: e in es && e.to in t.dist && e.to !in visited ==>
      e.to in Relaxation(t, visited, current, d, es).dist &&
      AtMost(Relaxation(t, visited, current, d, es).dist[e.to], Fin(d + e.weight))
    decreases |es|
  {
    RelaxationKeys(t, visited, current, d, es);
    if es != [] {
      var t' := RelaxOne(t, visited, current, d, es[0]);
      RelaxationTight(t', visited, current, d, es[1..]);
      if es[0].to in t.dist && es[0].to !in visited {
        RelaxationAt(t', visited, current, d, es[1..], es[0].to);
      }
      assert es == [es[0]] + es[1..];
    }
  }

  /** v has the same distance and the same parent, or lack of one, in t and t'. */
  ghost predicate Kept(t: Tables, t': Tables, v: nat)
    requires v in t.dist
  {
    v in t'.dist && t'.dist[v] == t.dist[v] && (v in t'.parents <==> v in t.parents)
    && (v in t.parents ==> t'.parents[v] == t.parents[v])
  }

  /** v is unvisited, has current as parent and a distance of d plus the
      weight of one of the edges of es to v. */
  ghost predicate Reparented(t: Tables, visited: set<nat>, current: nat, d: int, es: seq<Edge>, v: nat) {
    v !in visited && v in t.dist && v in t.parents && t.parents[v] == current
    && t.dist[v].Fin? && t.dist[v].value - d in Weights(es, v)
  }

  /** Relaxation only appends relax steps. */
  lemma {:induction false} RelaxationRecords(t: Tables, visited: set<nat>, current: nat, d: int, es: seq<Edge>)
    ensures |Relaxation(t, visited, current, d, es).steps| >= |t.steps|
    ensures Relaxation(t, visited, current, d, es).steps[..|t.steps|] == t.steps
    ensures forall i :: |t.steps| <= i < |Relaxation(t, visited, current, d, es).steps| ==>
      Relaxation(t, visited, current, d, es).steps[i].Relax?
    ensures |t.steps| > 0 ==> Relaxation(t, visited, current, d, es).steps[0] == t.steps[0]
    decreases |es|
  {
    if es != [] {
      var t' := RelaxOne(t, visited, current, d, es[0]);
      RelaxationRecords(t', visited, current, d, es[1..]);
      assert t'.steps[..|t.steps|] == t.steps;
    }
  }

  /** The relaxation loop over the edges of current, which sits at
      distance d; only edges to unvisited nodes that have a distance are
      considered. */
  method RelaxEdges(dist: map<nat, Dist>, parents: map<nat, nat>, steps: seq<Action>, visited: set<nat>,
                    current: nat, d: int, es: seq<Edge>)
    returns (dist': map<nat, Dist>, parents': map<nat, nat>, steps': seq<Action>)
    requires current in dist && dist[current] == Fin(d) && current in visited
    ensures Tables(dist', parents', steps') == Relaxation(Tables(dist, parents, steps), visited, current, d, es)
  {
    dist', parents', steps' := dist, parents, steps;
    for k := 0 to |es|
      invariant current in dist' && dist'[current] == Fin(d)
      invariant Relaxation(Tables(dist', parents', steps'), visited, current, d, es[k..]) ==
        Relaxation(Tables(dist, parents, steps), visited, current, d, es)
    {
      var e := es[k];
      assert es[k..][1..] == es[k + 1..];
      if e.to !in visited && e.to in dist' {
        var newDistance := dist'[current].value + e.weight;
        var currentDistance := dist'[e.to];
        if Below(Fin(newDistance), currentDistance) {
          dist' := dist'[e.to := Fin(newDistance)];
          parents' := parents'[e.to := current];
          steps' := steps' + [Relax(e, newDistance)];
        }
      }
    }
  }

  /** p, a visited node with a distance, is a fitting parent of v: the
      distance of v is that of p plus the weight of an edge from p to v. */
  ghost predicate ParentEdge(adj: Lists, dist: map<nat, Dist>, visited: set<nat>, v: nat, p: nat)
    requires v in dist
  {
    p in visited && p in dist && dist[p].Fin? && dist[v].Fin?
    && dist[v].value - dist[p].value in Weights(Neighbours(adj, p), v)
  }

  /** The state of Dijkstra's loop: the distances have the node ids as
      keys; visited nodes have finite distances; every parent is a fitting
      one; every node but start with a finite distance has a parent. */
  ghost predicate DijkstraState(adj: Lists, start: nat, keys: seq<nat>, dist: map<nat, Dist>,
                                parents: map<nat, nat>, visited: set<nat>) {
    (forall v :: v in dist <==> v in keys)
    && (forall v :: v in visited ==> v in dist && dist[v].Fin?)
    && (forall v :: v in parents ==> v in dist && ParentEdge(adj, dist, visited, v, parents[v]))
    && (forall v :: v in dist && dist[v].Fin? && v != start ==> v in parents)
  }

  /** Dijkstra's algorithm from start over the nodes ids. The maps and set
      returned are those of the last step: every parent is a visited node
      one edge away whose distance plus that edge's weight is the child's
      distance, every node reached has a parent, and the loop stops only
      when every node left unvisited is at distance infinity. */
  method Dijkstra(ids: seq<nat>, edges: seq<Edge>, start: nat)
    returns (steps: seq<Action>, dist: map<nat, Dist>, parents: map<nat, nat>, visited: set<nat>)
    ensures |steps| > 0 && steps[0] == Initialize(start)
    ensures forall v :: v in dist <==> v in ids
    ensures forall v :: v in visited ==> v in dist && dist[v].Fin?
    ensures forall v :: v in parents ==> v in dist && ParentEdge(AdjacencyOf(edges, true), dist, visited, v, parents[v])
    ensures forall v :: v in dist && dist[v].Fin? && v != start ==> v in parents
    ensures forall v :: v in dist && v !in visited ==> dist[v] == Inf
  {
    var adj := BuildAdjacency(edges, true);
    var keys: seq<nat>;
    keys, dist := InitDistances(ids, start);
    FirstOccurrencesHold(ids);
    parents, visited := map[], {};
    steps := [Initialize(start)];
    ghost var stopped := false;
    while |visited| < |ids|
      invariant DijkstraState(adj, start, keys, dist, parents, visited)
      invariant |steps| > 0 && steps[0] == Initialize(start)
      invariant !stopped
      decreases |ids| - |visited|
    {
      var current, least := SelectMin(keys, dist, visited);
      if current == -1 || least == Inf {
        stopped := true;
        break;
      }
      dist, parents, visited, steps := DijkstraRound(adj, start, keys, dist, parents, visited, steps, current, least.value);
    }
    if !stopped {
      NoneLeft(ids, dist, visited);
    }
  }

  /** One round of Dijkstra's loop after a node was selected: mark it
      visited, record the selection and relax its edges. */
  method DijkstraRound(adj: Lists, start: nat, ghost keys: seq<nat>, dist: map<nat, Dist>, parents: map<nat, nat>,
                       visited: set<nat>, steps: seq<Action>, u: nat, d: int)
    returns (dist': map<nat, Dist>, parents': map<nat, nat>, visited': set<nat>, steps': seq<Action>)
    requires DijkstraState(adj, start, keys, dist, parents, visited)
    requires u in dist && dist[u] == Fin(d) && u !in visited
    requires |steps| > 0 && steps[0] == Initialize(start)
    ensures DijkstraState(adj, start, keys, dist', parents', visited')
    ensures visited' == visited + {u} && |visited'| == |visited| + 1
    ensures |steps'| > 0 && steps'[0] == Initialize(start)
  {
    visited' := visited + {u};
    var selected := steps + [Select(u, d)];
    dist', parents', steps' := RelaxEdges(dist, parents, selected, visited', u, d, Neighbours(adj, u));
    DijkstraStep(adj, start, keys, Tables(dist, parents, selected), visited, u, d);
    RelaxationRecords(Tables(dist, parents, selected), visited', u, d, Neighbours(adj, u));
  }

  /** Once as many nodes are visited as there are ids, none is left. */
  lemma NoneLeft(ids: seq<nat>, dist: map<nat, Dist>, visited: set<nat>)
    requires forall v :: v in dist <==> v in ids
    requires forall v :: v in visited ==> v in dist
    requires |visited| >= |ids|
    ensures forall v :: v in dist ==> v in visited
  {
    forall v | v in dist
      ensures v in visited
    {
      if v !in visited {
        SetWithinSeq(visited + {v}, ids);
      }
    }
  }

  /** A round of Dijkstra's loop keeps its state. */
  lemma DijkstraStep(adj: Lists, start: nat, keys: seq<nat>, t: Tables, visited: set<nat>, current: nat, d: int)
    requires DijkstraState(adj, start, keys, t.dist, t.parents, visited)
    requires current in t.dist && t.dist[current] == Fin(d) && current !in visited
    ensures var out := Relaxation(t, visited + {current}, current, d, Neighbours(adj, current));
      DijkstraState(adj, start, keys, out.dist, out.parents, visited + {current})
  {
    var es := Neighbours(adj, current);
    var seen := visited + {current};
    var out := Relaxation(t, seen, current, d, es);
    RelaxationKeys(t, seen, current, d, es);
    RelaxationAt(t, seen, current, d, es, current);
    forall v | v in out.parents
      ensures v in out.dist && ParentEdge(adj, out.dist, seen, v, out.parents[v])
    {
      RelaxationKeys(t, seen, current, d, es);
      ParentStillFits(adj, t, visited, current, d, v);
    }
    forall v | v in out.dist && out.dist[v].Fin? && v != start
      ensures v in out.parents
    {
      RelaxationAt(t, seen, current, d, es, v);
    }
    forall v | v in seen
      ensures v in out.dist && out.dist[v].Fin?
    {
      RelaxationAt(t, seen, current, d, es, v);
    }
  }

  /** After a round every parent of a node still fits it. */
  lemma ParentStillFits(adj: Lists, t: Tables, visited: set<nat>, current: nat, d: int, v: nat)
    requires v in t.dist && (v in t.parents ==> ParentEdge(adj, t.dist, visited, v, t.parents[v]))
    requires current in t.dist && t.dist[current] == Fin(d) && current !in visited
    requires v in t.dist && v in Relaxation(t, visited + {current}, current, d, Neighbours(adj, current)).parents
    ensures var out := Relaxation(t, visited + {current}, current, d, Neighbours(adj, current));
      v in out.dist && ParentEdge(adj, out.dist, visited + {current}, v, out.parents[v])
  {
    var es := Neighbours(adj, current);
    var seen := visited + {current};
    var out := Relaxation(t, seen, current, d, es);
    RelaxationAt(t, seen, current, d, es, v);
    if Kept(t, out, v) {
      var p := t.parents[v];
      RelaxationAt(t, seen, current, d, es, p);
      KeptParent(adj, t.dist, out.dist, visited, seen, v, p);
    } else {
      RelaxationAt(t, seen, current, d, es, current);
      assert Reparented(out, seen, current, d, es, v);
      NewParent(adj, out.dist, seen, v, current, d);
    }
  }

  lemma KeptParent(adj: Lists, dist: map<nat, Dist>, dist': map<nat, Dist>, visited: set<nat>, seen: set<nat>, v: nat, p: nat)
    requires v in dist && v in dist' && ParentEdge(adj, dist, visited, v, p)
    requires visited <= seen && p in dist' && dist'[p] == dist[p] && dist'[v] == dist[v]
    ensures ParentEdge(adj, dist', seen, v, p)
  {
  }

  lemma NewParent(adj: Lists, dist: map<nat, Dist>, seen: set<nat>, v: nat, current: nat, d: int)
    requires v in dist && current in seen && current in dist && dist[current] == Fin(d)
    requires dist[v].Fin? && dist[v].value - d in Weights(Neighbours(adj, current), v)
    ensures ParentEdge(adj, dist, seen, v, current)
  {
  }

  /** A set whose elements all occur in s has at most |s| elements. */
  lemma {:induction false} SetWithinSeq(a: set<nat>, s: seq<nat>)
    requires forall x :: x in a ==> x in s
    ensures |a| <= |s|
    decreases |s|
  {
    if s != [] {
      var init := s[..|s| - 1];
      var rest := a - {s[|s| - 1]};
      forall y | y in rest
        ensures y in init
      {
        var i :| 0 <= i < |s| && s[i] == y;
        assert init[i] == y;
      }
      SetWithinSeq(rest, init);
    }
  }

  // ---------------------------------------------------------------------
  // Topological sort (lines 274-341)

  /** Every arc out of a listed node leads to a node listed after it or
      to a node from which it can be reached back. */
  ghost predicate TopoOrdered(adj: Lists, result: seq<nat>) {
    forall i, b :: 0 <= i < |result| && Arc(adj, result[i], b) ==> b in result[i + 1..] || Reaches(adj, b, result[i])
  }

  /** Every arc out of a finished node leads to a visited node. */
  ghost predicate Finished(adj: Lists, result: seq<nat>, visited: set<nat>) {
    forall x, b :: x in result && Arc(adj, x, b) ==> b in visited
  }

  /** No arc a -> b has a way back from b to a. */
  ghost predicate Acyclic(adj: Lists) {
    forall a, b :: Arc(adj, a, b) ==> !Reaches(adj, b, a)
  }

  /** The tail of a path from its j-th node is a path. */
  lemma PathSuffix(adj: Lists, p: seq<nat>, j: nat)
    requires IsPath(adj, p) && j < |p|
    ensures Reaches(adj, p[j], p[|p| - 1])
  {
    var q := p[j..];
    forall k | 0 <= k < |q| - 1
      ensures Arc(adj, q[k], q[k + 1])
    {
      assert q[k] == p[j + k] && q[k + 1] == p[j + k + 1];
    }
    assert IsPath(adj, q) && q[0] == p[j] && q[|q| - 1] == p[|p| - 1];
  }

  /** The depth-first visit of the topological sort: mark node, visit
      each unvisited far end of its edges in turn, then put node in front
      of the result. path holds the nodes whose visits are under way. */
  method TopoVisit(adj: Lists, ghost all: set<nat>, node: nat, visited: set<nat>, result: seq<nat>, ghost path: seq<nat>)
    returns (visited': set<nat>, result': seq<nat>)
    requires LeadsWithin(adj, all) && node in all && visited <= all && node !in visited
    requires Distinct(result) && (forall x :: x in visited <==> x in result || x in path)
    requires forall x :: x in path ==> x !in result
    requires IsPath(adj, path + [node])
    requires TopoOrdered(adj, result) && Finished(adj, result, visited)
    ensures visited <= visited' <= all && node in result'
    ensures |result'| > |result| && result'[|result'| - |result|..] == result
    ensures forall x :: x in result' && x !in result ==> x !in visited
    ensures Distinct(result') && (forall x :: x in visited' <==> x in result' || x in path)
    ensures TopoOrdered(adj, result') && Finished(adj, result', visited')
    decreases |all - visited|, 2
  {
    var v, r := TopoEdges(adj, all, node, visited, visited + {node}, result, result, path);
    TopoFinish(adj, node, v, r, path, Neighbours(adj, node));
    visited', result' := v, [node] + r;
  }

  /** The state of the loop over the edges of node: the visited nodes are
      the finished ones and the grey ones (path and node); what was
      finished before keeps its place at the end of the result, and what
      was finished since was unvisited before. */
  ghost predicate TopoLoop(adj: Lists, all: set<nat>, node: nat, visited: set<nat>, result: seq<nat>,
                           path: seq<nat>, v: set<nat>, r: seq<nat>) {
    visited + {node} <= v <= all
    && Distinct(r) && node !in r && (forall x :: x in v <==> x in r || x in path + [node])
    && |r| >= |result| && r[|r| - |result|..] == result
    && (forall x :: x in r && x !in result ==> x !in visited)
    && (forall x :: x in path ==> x !in r)
    && TopoOrdered(adj, r) && Finished(adj, r, v)
  }

  /** The loop of the visit of node over its edges in order, descending
      into each far end that is still unvisited. */
  method TopoEdges(adj: Lists, ghost all: set<nat>, node: nat, ghost visited: set<nat>, v0: set<nat>, r0: seq<nat>,
                   ghost result: seq<nat>, ghost path: seq<nat>)
    returns (v: set<nat>, r: seq<nat>)
    requires LeadsWithin(adj, all) && node in all && node !in visited && IsPath(adj, path + [node])
    requires TopoLoop(adj, all, node, visited, result, path, v0, r0)
    ensures TopoLoop(adj, all, node, visited, result, path, v, r)
    ensures forall e :: e in Neighbours(adj, node) ==> e.to in v
    decreases |all - visited|, 1
  {
    v, r := v0, r0;
    var es := Neighbours(adj, node);
    for k := 0 to |es|
      invariant TopoLoop(adj, all, node, visited, result, path, v, r)
      invariant forall j :: 0 <= j < k ==> es[j].to in v
    {
      var e := es[k];
      if e.to !in v {
        v, r := TopoChild(adj, all, node, visited, result, path, v, r, e);
      }
    }
  }

  /** The descent from the loop of the visit of node into the unvisited
      far end of its edge e. */
  method TopoChild(adj: Lists, ghost all: set<nat>, node: nat, ghost visited: set<nat>, ghost result: seq<nat>,
                   ghost path: seq<nat>, v: set<nat>, r: seq<nat>, e: Edge)
    returns (v': set<nat>, r': seq<nat>)
    requires LeadsWithin(adj, all) && node in all && node !in visited && IsPath(adj, path + [node])
    requires TopoLoop(adj, all, node, visited, result, path, v, r)
    requires e in Neighbours(adj, node) && e.to !in v
    ensures TopoLoop(adj, all, node, visited, result, path, v', r') && v <= v' && e.to in v'
    decreases |all - visited|, 0
  {
    TopoDescend(adj, all, visited, v, node, e);
    ExtendPath(adj, path + [node], e.to);
    v', r' := TopoVisit(adj, all, e.to, v, r, path + [node]);
    TopoChildDone(adj, all, node, visited, result, path, v, r, e.to, v', r');
  }

  /** Before descending into the far end of an edge of node: the visit
      set has shrunk what is left, and the grey path extends by an arc. */
  lemma TopoDescend(adj: Lists, all: set<nat>, visited: set<nat>, v: set<nat>, node: nat, e: Edge)
    requires LeadsWithin(adj, all) && node in all && node !in visited && visited + {node} <= v <= all
    requires e in Neighbours(adj, node)
    ensures e.to in all && |all - v| < |all - visited|
    ensures Arc(adj, node, e.to)
  {
    FewerLeft(all, visited, node);
    var smaller := all - (visited + {node});
    assert all - v <= smaller;
    assert smaller == (all - v) + (smaller - (all - v));
    TargetsHold(Neighbours(adj, node), e);
  }

  /** The loop state survives a nested visit of child. */
  lemma TopoChildDone(adj: Lists, all: set<nat>, node: nat, visited: set<nat>, result: seq<nat>, path: seq<nat>,
                      v: set<nat>, r: seq<nat>, child: nat, v': set<nat>, r': seq<nat>)
    requires TopoLoop(adj, all, node, visited, result, path, v, r)
    requires v <= v' <= all && child in r'
    requires |r'| > |r| && r'[|r'| - |r|..] == r
    requires forall x :: x in r' && x !in r ==> x !in v
    requires Distinct(r') && (forall x :: x in v' <==> x in r' || x in path + [node])
    requires TopoOrdered(adj, r') && Finished(adj, r', v')
    ensures TopoLoop(adj, all, node, visited, result, path, v', r') && v <= v' && child in v'
  {
    TopoKeepsTail(result, r, r');
  }

  /** What a nested visit keeps of the result keeps the original tail. */
  lemma TopoKeepsTail(result: seq<nat>, r0: seq<nat>, r: seq<nat>)
    requires |r0| >= |result| && r0[|r0| - |result|..] == result
    requires |r| >= |r0| && r[|r| - |r0|..] == r0
    ensures |r| >= |result| && r[|r| - |result|..] == result
  {
    assert r[|r| - |result|..] == r0[|r0| - |result|..];
  }

  /** Putting node in front once all its edges are explored keeps the
      result ordered and finished. */
  lemma TopoFinish(adj: Lists, node: nat, v: set<nat>, r: seq<nat>, path: seq<nat>, es: seq<Edge>)
    requires es == Neighbours(adj, node) && forall j :: 0 <= j < |es| ==> es[j].to in v
    requires IsPath(adj, path + [node]) && node in v && node !in r
    requires forall x :: x in v <==> x in r || x in path + [node]
    requires Distinct(r) && TopoOrdered(adj, r) && Finished(adj, r, v)
    ensures Distinct([node] + r) && TopoOrdered(adj, [node] + r) && Finished(adj, [node] + r, v)
  {
    var r' := [node] + r;
    forall b | Arc(adj, node, b)
      ensures b in v && (b in r'[1..] || Reaches(adj, b, node))
    {
      var j :| 0 <= j < |es| && Targets(es)[j] == b;
      assert r'[1..] == r;
      if b !in r {
        var p := path + [node];
        var m :| 0 <= m < |p| && p[m] == b;
        PathSuffix(adj, p, m);
      }
    }
    forall i, b | 0 <= i < |r'| && Arc(adj, r'[i], b)
      ensures b in r'[i + 1..] || Reaches(adj, b, r'[i])
    {
      if i > 0 {
        assert r'[i] == r[i - 1] && r'[i + 1..] == r[i..];
      }
    }
    forall i, j | 0 <= i < j < |r'|
      ensures r'[i] != r'[j]
    {
      if i == 0 {
        assert r'[j] == r[j - 1];
      } else {
        assert r'[i] == r[i - 1] && r'[j] == r[j - 1];
      }
    }
  }

  /** Depth-first topological sort of the graph read as directed, started
      from each node of ids in turn that is still unvisited: every node of
      ids is listed, none twice, and every arc between listed nodes goes
      forward in the list or closes a cycle. */
  method TopologicalSort(ids: seq<nat>, edges: seq<Edge>) returns (result: seq<nat>)
    ensures Distinct(result) && forall x :: x in ids ==> x in result
    ensures forall x, b :: x in result && Arc(AdjacencyOf(edges, false), x, b) ==> b in result
    ensures TopoOrdered(AdjacencyOf(edges, false), result)
  {
    var adj := BuildAdjacency(edges, false);
    ghost var all := Ends(edges) + set x | x in ids;
    AdjacencyWithin(edges, false, set x | x in ids);
    var visited: set<nat> := {};
    result := [];
    for i := 0 to |ids|
      invariant visited <= all && Distinct(result) && (forall x :: x in visited <==> x in result)
      invariant TopoOrdered(adj, result) && Finished(adj, result, visited)
      invariant forall j :: 0 <= j < i ==> ids[j] in visited
    {
      if ids[i] !in visited {
        visited, result := TopoVisit(adj, all, ids[i], visited, result, []);
      }
    }
  }

  /** In a graph without cycles the order is topological: every arc
      between listed nodes goes forward. */
  lemma TopoOrderAcyclic(adj: Lists, result: seq<nat>)
    requires Distinct(result) && TopoOrdered(adj, result) && Acyclic(adj)
    ensures forall i, j :: 0 <= i < |result| && 0 <= j < |result| && Arc(adj, result[i], result[j]) ==> i < j
  {
    forall i, j | 0 <= i < |result| && 0 <= j < |result| && Arc(adj, result[i], result[j])
      ensures i < j
    {
      assert !Reaches(adj, result[j], result[i]);
      var m :| i + 1 <= m < |result| && result[m] == result[j];
    }
  }
}
