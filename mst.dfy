/** The minimum-spanning-tree visualizer: a union-find with path
    compression and union by rank, Kruskal's algorithm over the edges sorted
    by weight, and Prim's algorithm grown from vertex 0. The vertices are
    0..n-1; each algorithm returns the list of step records it shows. */
module EnhancedMST {
  import opened Common
  import opened DisjointSets

  datatype Edge = Edge(from: nat, to: nat, weight: int, id: string)

  datatype Action = Add | Reject | Consider | Start | Complete

  /** One step record. Kruskal's steps leave `visited` empty and Prim's
      leave `sortedEdges` and `unionFind` empty, where the app leaves those
      fields undefined. */
  datatype MSTStep = MSTStep(step: nat, edge: Option<Edge>, action: Action, currentMST: seq<Edge>,
                             totalWeight: int, sortedEdges: seq<Edge>, unionFind: seq<nat>, visited: set<nat>)

  /** Every edge joins two of the vertices 0..n-1. */
  predicate InRange(es: seq<Edge>, n: nat) {
    forall i :: 0 <= i < |es| ==> es[i].from < n && es[i].to < n
  }

  function TotalWeight(es: seq<Edge>): int {
    if |es| == 0 then 0 else TotalWeight(es[..|es| - 1]) + es[|es| - 1].weight
  }

  lemma TotalWeightAppend(es: seq<Edge>, e: Edge)
    ensures TotalWeight(es + [e]) == TotalWeight(es) + e.weight
  {
    assert (es + [e])[..|es|] == es;
  }

  /** Every member is one of the vertices 0..n-1. */
  predicate Bounded(a: set<nat>, n: nat) {
    forall v :: v in a ==> v < n
  }

  /** At most n vertices lie among 0..n-1, and n of them are all of them. */
  lemma {:induction false} BoundedSize(a: set<nat>, n: nat)
    requires Bounded(a, n)
    ensures |a| <= n
    ensures |a| == n ==> forall v: nat :: v < n ==> v in a
    decreases n
  {
    if n == 0 {
      assert a == {};
    } else {
      var a' := a - {n - 1};
      BoundedSize(a', n - 1);
      if |a| == n {
        assert n - 1 in a;
        assert |a'| == n - 1;
        forall v: nat | v < n
          ensures v in a
        {
          if v < n - 1 {
            assert v in a';
          }
        }
      }
    }
  }

  // ---------------------------------------------------------------------
  // Union-find (lines 40-76)

  class UnionFind {
    var parent: seq<nat>
    var rank: seq<nat>
    /** A cap on every rank: it bounds the walk to a root. */
    ghost var bound: nat

    ghost predicate Valid()
      reads this
    {
      Forest(parent, rank, bound)
    }

    /** The root of every element: equal labels mean one set. */
    ghost function Labels(): seq<nat>
      reads this
      requires Valid()
    {
      RootsOf(parent, rank, bound)
    }

    /** Every element is its own parent with rank 0: n singletons. */
    constructor (size: nat)
      ensures Valid() && |parent| == size
      ensures forall i :: 0 <= i < size ==> parent[i] == i && rank[i] == 0
      ensures forall z :: 0 <= z < size ==> Labels()[z] == z
    {
      parent := seq(size, i => i);
      rank := seq(size, i => 0);
      bound := 0;
      new;
      Singletons(parent, rank);
    }

    /** The root of x; x now points straight at it, every other element
        keeps its parent or points straight at its own root, and no element
        changes set. */
    method Find(x: nat) returns (r: nat)
      requires Valid() && x < |parent|
      modifies this
      ensures Valid() && rank == old(rank) && bound == old(bound)
      ensures Redirected(old(parent), rank, bound, parent)
      ensures r == Root(old(parent), rank, bound, x) && parent[x] == r
      ensures Labels() == old(Labels())
      decreases bound - rank[x]
    {
      ghost var parent0 := parent;
      if parent[x] != x {
        var r0 := Find(parent[x]);
        RedirectedExtend(parent0, rank, bound, parent, x, r0);
        parent := parent[x := r0];
        RedirectedRoots(parent0, rank, bound, parent);
      }
      r := parent[x];
    }

    /** Puts root loser under root winner, whose rank becomes k. */
    method Link(loser: nat, winner: nat, k: nat)
      requires Valid() && Linkable(parent, rank, bound, loser, winner, k, if k > bound then k else bound)
      modifies this
      ensures Valid() && parent == old(parent)[loser := winner] && rank == old(rank)[winner := k]
      ensures Labels() == Unite(old(Labels()), loser, winner, winner)
    {
      ghost var bound' := if k > bound then k else bound;
      LinkRoots(parent, rank, bound, loser, winner, k, bound');
      parent := parent[loser := winner];
      rank := rank[winner := k];
      bound := bound';
    }

    /** Puts the root of lower rank under the other; on a tie ry goes under
        rx, whose rank grows by one. */
    method LinkByRank(rx: nat, ry: nat)
      requires Valid() && rx < |parent| && ry < |parent| && rx != ry && parent[rx] == rx && parent[ry] == ry
      modifies this
      ensures Valid() && |parent| == old(|parent|)
      ensures Labels() == old(Unite(Labels(), rx, ry, Winner(rank, rx, ry)))
      ensures rank == Ranked(old(rank), rx, ry)
    {
      ghost var labels := Labels();
      assert labels[rx] == rx && labels[ry] == ry;
      if rank[rx] < rank[ry] {
        Link(rx, ry, rank[ry]);
        UniteSame(labels, rx, ry, rx, ry, ry);
      } else if rank[rx] > rank[ry] {
        Link(ry, rx, rank[rx]);
        UniteSame(labels, ry, rx, rx, ry, rx);
      } else {
        Link(ry, rx, rank[rx] + 1);
        UniteSame(labels, ry, rx, rx, ry, rx);
      }
    }

    /** The roots of x and y, found one after the other. */
    method FindRoots(x: nat, y: nat) returns (rootX: nat, rootY: nat)
      requires Valid() && x < |parent| && y < |parent|
      modifies this
      ensures Valid() && |parent| == old(|parent|) && rank == old(rank) && Labels() == old(Labels())
      ensures rootX == Labels()[x] && rootY == Labels()[y]
      ensures rootX < |parent| && parent[rootX] == rootX && rootY < |parent| && parent[rootY] == rootY
    {
      ghost var labels := Labels();
      rootX := Find(x);
      rootY := Find(y);
      assert rootX == labels[x] && rootY == labels[y];
    }

    /** Joins the sets of x and y; false, with no set changed, when they
        are already one. The root of lower rank goes under the other; on a
        tie the root of y goes under the root of x, whose rank grows by one. */
    method Union(x: nat, y: nat) returns (merged: bool)
      requires Valid() && x < |parent| && y < |parent|
      modifies this
      ensures Valid() && |parent| == old(|parent|)
      ensures merged <==> old(Labels()[x] != Labels()[y])
      ensures Labels() == old(if merged then Unite(Labels(), x, y, Winner(rank, Labels()[x], Labels()[y])) else Labels())
      ensures rank == if merged then Ranked(old(rank), old(Labels()[x]), old(Labels()[y])) else old(rank)
    {
      ghost var labels, rank0 := Labels(), rank;
      var rootX, rootY := FindRoots(x, y);
      assert rootX == labels[x] && rootY == labels[y];
      if rootX == rootY {
        return false;
      }
      assert labels[rootX] == rootX && labels[rootY] == rootY;
      LinkByRank(rootX, rootY);
      UniteSame(labels, rootX, rootY, x, y, Winner(rank0, rootX, rootY));
      merged := true;
    }
  }

  // ---------------------------------------------------------------------
  // Sorting the edges by weight (line 191)

  predicate SortedByWeight(es: seq<Edge>) {
    forall i, j :: 0 <= i < j < |es| ==> es[i].weight <= es[j].weight
  }

  /** Inserts e before the first edge at least as heavy. */
  function InsertByWeight(e: Edge, es: seq<Edge>): (r: seq<Edge>)
    ensures |r| == |es| + 1 && multiset(r) == multiset(es) + multiset{e}
  {
    if |es| == 0 || e.weight <= es[0].weight then [e] + es
    else
      assert es == [es[0]] + es[1..];
      [es[0]] + InsertByWeight(e, es[1..])
  }

  /** The stable sort by weight of the edge list. */
  function SortByWeight(es: seq<Edge>): (r: seq<Edge>)
    ensures |r| == |es| && multiset(r) == multiset(es)
  {
    if |es| == 0 then []
    else
      assert es == [es[0]] + es[1..];
      InsertByWeight(es[0], SortByWeight(es[1..]))
  }

  lemma {:induction false} InsertByWeightSpec(e: Edge, es: seq<Edge>)
    requires SortedByWeight(es)
    ensures SortedByWeight(InsertByWeight(e, es))
    ensures InsertByWeight(e, es)[0] == e || InsertByWeight(e, es)[0] == es[0]
  {
    if |es| > 0 && e.weight > es[0].weight {
      var rest := InsertByWeight(e, es[1..]);
      InsertByWeightSpec(e, es[1..]);
      assert es[0].weight <= rest[0].weight;
    }
  }

  /** The sorted list is ordered by weight and holds the same edges. */
  lemma {:induction false} SortByWeightSpec(es: seq<Edge>)
    ensures SortedByWeight(SortByWeight(es))
  {
    if |es| > 0 {
      SortByWeightSpec(es[1..]);
      InsertByWeightSpec(es[0], SortByWeight(es[1..]));
    }
  }

  /** Sorting keeps the edges between the vertices 0..n-1. */
  lemma SortedInRange(es: seq<Edge>, n: nat)
    requires InRange(es, n)
    ensures InRange(SortByWeight(es), n)
  {
    var s := SortByWeight(es);
    forall i | 0 <= i < |s|
      ensures s[i].from < n && s[i].to < n
    {
      assert s[i] in multiset(es);
    }
  }

  // ---------------------------------------------------------------------
  // Kruskal's algorithm (lines 189-255), specified on component labels

  /** At most n-1 edges are taken; none when there are no vertices. */
  function Limit(n: nat): nat {
    if n == 0 then 0 else n - 1
  }

  /** The component of every vertex once the edges es are joined, named
      by one of its vertices. */
  function Label(n: nat, es: seq<Edge>): (r: seq<nat>)
    requires InRange(es, n)
    ensures |r| == n
  {
    if |es| == 0 then seq(n, i => i)
    else
      var l := Label(n, es[..|es| - 1]);
      var e := es[|es| - 1];
      Unite(l, e.from, e.to, l[e.from])
  }

  /** e joins two different components of the forest es. */
  predicate Joins(n: nat, es: seq<Edge>, e: Edge)
    requires InRange(es, n) && e.from < n && e.to < n
  {
    Label(n, es)[e.from] != Label(n, es)[e.to]
  }

  lemma LabelAppend(n: nat, es: seq<Edge>, e: Edge)
    requires InRange(es, n) && e.from < n && e.to < n
    ensures InRange(es + [e], n)
    ensures Label(n, es + [e]) == Unite(Label(n, es), e.from, e.to, Label(n, es)[e.from])
  {
    assert (es + [e])[..|es|] == es;
  }

  /** The edges Kruskal's scan takes from es, in order: an edge is taken
      while fewer than limit are, and when it joins two components. */
  function Chosen(n: nat, es: seq<Edge>, limit: nat): (r: seq<Edge>)
    requires InRange(es, n)
    ensures InRange(r, n) && |r| <= limit
  {
    if |es| == 0 then []
    else
      var m := Chosen(n, es[..|es| - 1], limit);
      var e := es[|es| - 1];
      if |m| < limit && Joins(n, m, e) then m + [e] else m
  }

  /** Once limit edges are taken, the scan takes nothing more. */
  lemma {:induction false} ChosenSaturated(n: nat, es: seq<Edge>, limit: nat, i: nat)
    requires InRange(es, n) && i <= |es| && |Chosen(n, es[..i], limit)| >= limit
    ensures Chosen(n, es, limit) == Chosen(n, es[..i], limit)
    decreases |es| - i
  {
    if i < |es| {
      assert es[..i + 1][..i] == es[..i];
      ChosenSaturated(n, es, limit, i + 1);
    } else {
      assert es[..i] == es;
    }
  }

  /** Every taken edge is an edge of es. */
  lemma {:induction false} ChosenFrom(n: nat, es: seq<Edge>, limit: nat)
    requires InRange(es, n)
    ensures forall e :: e in Chosen(n, es, limit) ==> e in es
  {
    if |es| > 0 {
      ChosenFrom(n, es[..|es| - 1], limit);
      assert forall e :: e in es[..|es| - 1] ==> e in es;
    }
  }

  /** Edges sorted by weight are taken in order of weight. */
  lemma {:induction false} ChosenSorted(n: nat, es: seq<Edge>, limit: nat)
    requires InRange(es, n) && SortedByWeight(es)
    ensures SortedByWeight(Chosen(n, es, limit))
  {
    if |es| > 0 {
      var init := es[..|es| - 1];
      var m := Chosen(n, init, limit);
      ChosenSorted(n, init, limit);
      ChosenFrom(n, init, limit);
      forall k | 0 <= k < |m|
        ensures m[k].weight <= es[|es| - 1].weight
      {
        assert m[k] in init;
      }
    }
  }

  /** Each taken edge merges two components: the taken edges form a forest
      with n - |edges| components. */
  lemma {:induction false} ChosenForest(n: nat, es: seq<Edge>, limit: nat)
    requires InRange(es, n)
    ensures |Classes(Label(n, Chosen(n, es, limit)))| + |Chosen(n, es, limit)| == n
  {
    if |es| == 0 {
      IdentityClasses(Label(n, []));
    } else {
      var init := es[..|es| - 1];
      var m := Chosen(n, init, limit);
      var e := es[|es| - 1];
      ChosenForest(n, init, limit);
      if |m| < limit && Joins(n, m, e) {
        LabelAppend(n, m, e);
        UniteCount(Label(n, m), e.from, e.to);
      }
    }
  }

  /** If fewer than limit edges are taken, every edge of es ends inside
      one component: the forest spans every component of the graph. */
  lemma {:induction false} ChosenSpans(n: nat, es: seq<Edge>, limit: nat)
    requires InRange(es, n) && |Chosen(n, es, limit)| < limit
    ensures forall k :: 0 <= k < |es| ==>
      Label(n, Chosen(n, es, limit))[es[k].from] == Label(n, Chosen(n, es, limit))[es[k].to]
  {
    if |es| > 0 {
      var init := es[..|es| - 1];
      var m := Chosen(n, init, limit);
      var e := es[|es| - 1];
      ChosenSpans(n, init, limit);
      if Joins(n, m, e) {
        LabelAppend(n, m, e);
        var l := Label(n, m);
        forall k | 0 <= k < |es|
          ensures Label(n, m + [e])[es[k].from] == Label(n, m + [e])[es[k].to]
        {
          if k < |es| - 1 {
            assert es[k] == init[k];
            UniteCoarsens(l, e.from, e.to, l[e.from], es[k].from, es[k].to);
          }
        }
      } else {
        forall k | 0 <= k < |es|
          ensures Label(n, m)[es[k].from] == Label(n, m)[es[k].to]
        {
          if k < |es| - 1 {
            assert es[k] == init[k];
          }
        }
      }
    }
  }

  ghost predicate KruskalStart(n: nat, sorted: seq<Edge>, s: MSTStep) {
    s == MSTStep(0, None, Start, [], 0, sorted, s.unionFind, {}) && IsIdentity(s.unionFind, n)
  }

  /** One pass of the loop of lines 206-245: a consider step, then an add
      step when the edge joins two components of the forest so far, or a
      reject step; the union-find shown is the one after the union. */
  ghost predicate KruskalRound(n: nat, prev: MSTStep, e: Edge, c: MSTStep, d: MSTStep) {
    InRange(prev.currentMST, n) && e.from < n && e.to < n && |prev.currentMST| < Limit(n)
    && c == MSTStep(prev.step + 1, Some(e), Consider, prev.currentMST, prev.totalWeight, prev.sortedEdges, prev.unionFind, {})
    && var joins := Joins(n, prev.currentMST, e);
    d == MSTStep(prev.step + 2, Some(e), if joins then Add else Reject,
                 if joins then prev.currentMST + [e] else prev.currentMST,
                 if joins then prev.totalWeight + e.weight else prev.totalWeight,
                 prev.sortedEdges, d.unionFind, {})
    && |d.unionFind| == n
  }

  /** The start step and one round for each of the first i sorted edges. */
  ghost predicate KruskalLog(n: nat, sorted: seq<Edge>, steps: seq<MSTStep>, i: nat)
    decreases i
  {
    if i == 0 then |steps| == 1 && KruskalStart(n, sorted, steps[0])
    else (i <= |sorted| && |steps| >= 3
          && KruskalLog(n, sorted, steps[..|steps| - 2], i - 1)
          && KruskalRound(n, steps[|steps| - 3], sorted[i - 1], steps[|steps| - 2], steps[|steps| - 1]))
  }

  /** What the loop of lines 206-245 keeps of its log: i sorted edges
      considered, and the forest so far is the edges the scan takes from
      them. */
  ghost predicate KruskalProgress(n: nat, sorted: seq<Edge>, i: nat, steps: seq<MSTStep>, mst: seq<Edge>, total: int) {
    InRange(sorted, n) && i <= |sorted|
    && KruskalLog(n, sorted, steps, i) && |steps| == 2 * i + 1
    && steps[|steps| - 1].step == |steps| - 1
    && steps[|steps| - 1].currentMST == mst && steps[|steps| - 1].totalWeight == total
    && steps[|steps| - 1].sortedEdges == sorted
    && mst == Chosen(n, sorted[..i], Limit(n)) && total == TotalWeight(mst)
  }

  /** The log and the union-find: it groups the vertices as the forest so
      far does. */
  ghost predicate KruskalState(n: nat, sorted: seq<Edge>, uf: UnionFind, i: nat, steps: seq<MSTStep>, mst: seq<Edge>, total: int)
    reads uf
  {
    KruskalProgress(n, sorted, i, steps, mst, total)
    && uf.Valid() && |uf.parent| == n && steps[|steps| - 1].unionFind == uf.parent
    && SameClasses(uf.Labels(), Label(n, mst))
  }

  lemma KruskalLogNext(n: nat, sorted: seq<Edge>, steps: seq<MSTStep>, i: nat, c: MSTStep, d: MSTStep)
    requires KruskalLog(n, sorted, steps, i) && |steps| > 0 && i < |sorted|
    requires KruskalRound(n, steps[|steps| - 1], sorted[i], c, d)
    ensures KruskalLog(n, sorted, steps + [c, d], i + 1)
  {
    var steps' := steps + [c, d];
    assert steps'[..|steps'| - 2] == steps;
  }

  lemma ChosenNext(n: nat, es: seq<Edge>, limit: nat, i: nat)
    requires InRange(es, n) && i < |es|
    ensures var m := Chosen(n, es[..i], limit);
      Chosen(n, es[..i + 1], limit) == if |m| < limit && Joins(n, m, es[i]) then m + [es[i]] else m
  {
    assert es[..i + 1][..i] == es[..i];
  }

  lemma ProgressNext(n: nat, sorted: seq<Edge>, i: nat, steps: seq<MSTStep>, mst: seq<Edge>, total: int, c: MSTStep, d: MSTStep)
    requires KruskalProgress(n, sorted, i, steps, mst, total) && i < |sorted|
    requires KruskalRound(n, steps[|steps| - 1], sorted[i], c, d)
    ensures KruskalProgress(n, sorted, i + 1, steps + [c, d], d.currentMST, d.totalWeight)
  {
    KruskalLogNext(n, sorted, steps, i, c, d);
    ChosenNext(n, sorted, Limit(n), i);
    TotalWeightAppend(mst, sorted[i]);
  }

  /** The union of line 220: it succeeds exactly when e joins two
      components of the forest so far, and the union-find then groups the
      vertices as the forest with e does. */
  method UnionEdge(n: nat, uf: UnionFind, mst: seq<Edge>, e: Edge) returns (merged: bool)
    requires uf.Valid() && |uf.parent| == n && e.from < n && e.to < n && InRange(mst, n)
    requires SameClasses(uf.Labels(), Label(n, mst))
    modifies uf
    ensures merged == Joins(n, mst, e) && InRange(mst + [e], n)
    ensures uf.Valid() && |uf.parent| == n
    ensures SameClasses(uf.Labels(), Label(n, if merged then mst + [e] else mst))
  {
    ghost var labels := Label(n, mst);
    ghost var before := uf.Labels();
    ghost var w := Winner(uf.rank, before[e.from], before[e.to]);
    merged := uf.Union(e.from, e.to);
    LabelAppend(n, mst, e);
    if merged {
      UniteClasses(before, labels, e.from, e.to, w, labels[e.from]);
    }
  }

  /** The body of lines 207-244 for one edge: the consider step, the union,
      and the add or reject step. */
  method ConsiderEdge(n: nat, uf: UnionFind, prev: MSTStep, e: Edge) returns (c: MSTStep, d: MSTStep)
    requires uf.Valid() && |uf.parent| == n && e.from < n && e.to < n
    requires InRange(prev.currentMST, n) && |prev.currentMST| < Limit(n)
    requires prev.unionFind == uf.parent && SameClasses(uf.Labels(), Label(n, prev.currentMST))
    modifies uf
    ensures KruskalRound(n, prev, e, c, d)
    ensures uf.Valid() && |uf.parent| == n && d.unionFind == uf.parent
    ensures SameClasses(uf.Labels(), Label(n, d.currentMST))
  {
    var mst, total := prev.currentMST, prev.totalWeight;
    c := MSTStep(prev.step + 1, Some(e), Consider, mst, total, prev.sortedEdges, uf.parent, {});
    var merged := UnionEdge(n, uf, mst, e);
    if merged {
      d := MSTStep(prev.step + 2, Some(e), Add, mst + [e], total + e.weight, prev.sortedEdges, uf.parent, {});
    } else {
      d := MSTStep(prev.step + 2, Some(e), Reject, mst, total, prev.sortedEdges, uf.parent, {});
    }
  }

  /** One pass of the loop of lines 206-245, for the sorted edge i. */
  method KruskalPass(n: nat, sorted: seq<Edge>, uf: UnionFind, i: nat, steps: seq<MSTStep>, mst: seq<Edge>, total: int)
    returns (steps': seq<MSTStep>, mst': seq<Edge>, total': int)
    requires KruskalState(n, sorted, uf, i, steps, mst, total) && i < |sorted| && |mst| < Limit(n)
    modifies uf
    ensures KruskalState(n, sorted, uf, i + 1, steps', mst', total')
  {
    var c, d := ConsiderEdge(n, uf, steps[|steps| - 1], sorted[i]);
    ProgressNext(n, sorted, i, steps, mst, total, c, d);
    steps', mst', total' := steps + [c, d], d.currentMST, d.totalWeight;
  }

  /** The loop of lines 206-245 after the start step: it ends once n-1
      edges are taken or every edge is considered, holding the edges the
      scan takes from all the sorted edges. */
  method KruskalLoop(n: nat, sorted: seq<Edge>, uf: UnionFind, steps0: seq<MSTStep>)
    returns (steps: seq<MSTStep>, mst: seq<Edge>, total: int, i: nat)
    requires KruskalState(n, sorted, uf, 0, steps0, [], 0)
    modifies uf
    ensures KruskalState(n, sorted, uf, i, steps, mst, total) && mst == Chosen(n, sorted, Limit(n))
  {
    steps, mst, total, i := steps0, [], 0, 0;
    while i < |sorted| && |mst| < Limit(n)
      invariant KruskalState(n, sorted, uf, i, steps, mst, total)
      decreases |sorted| - i
    {
      steps, mst, total := KruskalPass(n, sorted, uf, i, steps, mst, total);
      i := i + 1;
    }
    if i < |sorted| {
      ChosenSaturated(n, sorted, Limit(n), i);
    } else {
      assert sorted[..i] == sorted;
    }
  }

  /** Kruskal's algorithm: a start step, one consider step and one add or
      reject step per edge scanned in order of weight until n-1 edges are
      taken or the edges run out, and a complete step holding the edges the
      scan takes and their total weight. */
  method KruskalSteps(n: nat, edges: seq<Edge>) returns (steps: seq<MSTStep>, ghost considered: nat)
    requires InRange(edges, n)
    ensures considered <= |edges| && |steps| == 2 * considered + 2
    ensures KruskalLog(n, SortByWeight(edges), steps[..|steps| - 1], considered)
    ensures InRange(SortByWeight(edges), n)
    ensures var mst := Chosen(n, SortByWeight(edges), Limit(n));
      steps[|steps| - 1] == MSTStep(|steps| - 1, None, Complete, mst, TotalWeight(mst), SortByWeight(edges),
                                    steps[|steps| - 1].unionFind, {})
  {
    var sorted := SortByWeight(edges);
    SortedInRange(edges, n);
    var uf := new UnionFind(n);
    var start := MSTStep(0, None, Start, [], 0, sorted, uf.parent, {});
    assert SameClasses(uf.Labels(), Label(n, []));
    assert [start][..0] == [];
    var log, mst, total, i := KruskalLoop(n, sorted, uf, [start]);
    considered := i;
    var complete := MSTStep(|log|, None, Complete, mst, total, sorted, uf.parent, {});
    steps := log + [complete];
    assert steps[..|steps| - 1] == log;
  }

  // ---------------------------------------------------------------------
  // Prim's algorithm (lines 258-333)

  /** e has exactly one end in the visited set. */
  predicate Crosses(e: Edge, visited: set<nat>) {
    (e.from in visited) != (e.to in visited)
  }

  /** The first crossing edge of strictly least weight, scanning es in
      order; none when no edge crosses. */
  function Lightest(es: seq<Edge>, visited: set<nat>): Option<Edge> {
    if |es| == 0 then None
    else
      var m := Lightest(es[..|es| - 1], visited);
      var e := es[|es| - 1];
      if Crosses(e, visited) && (m.None? || e.weight < m.value.weight) then Some(e) else m
  }

  /** The lightest crossing edge is a crossing edge of es weighing no more
      than any other, and there is none exactly when no edge crosses. */
  lemma {:induction false} LightestSpec(es: seq<Edge>, visited: set<nat>)
    ensures var r := Lightest(es, visited);
      (r.None? <==> forall k :: 0 <= k < |es| ==> !Crosses(es[k], visited))
      && (r.Some? ==> (r.value in es && Crosses(r.value, visited)
                       && forall k :: 0 <= k < |es| && Crosses(es[k], visited) ==> r.value.weight <= es[k].weight))
  {
    if |es| > 0 {
      var init := es[..|es| - 1];
      LightestSpec(init, visited);
      assert forall k :: 0 <= k < |init| ==> init[k] == es[k];
      assert forall e :: e in init ==> e in es;
    }
  }

  /** The scan of lines 284-293. */
  method FindLightest(es: seq<Edge>, visited: set<nat>) returns (minEdge: Option<Edge>)
    ensures minEdge == Lightest(es, visited)
  {
    minEdge := None;
    for i := 0 to |es|
      invariant minEdge == Lightest(es[..i], visited)
    {
      assert es[..i + 1][..i] == es[..i];
      var e := es[i];
      if Crosses(e, visited) && (minEdge.None? || e.weight < minEdge.value.weight) {
        minEdge := Some(e);
      }
    }
    assert es[..|es|] == es;
  }

  /** The end of e that is not yet visited: `from` when it is not, else `to`. */
  function Unvisited(e: Edge, visited: set<nat>): nat {
    if e.from !in visited then e.from else e.to
  }

  /** One pass of the loop of lines 280-326: the lightest crossing edge is
      shown, then taken, with its unvisited end. */
  ghost predicate PrimRound(es: seq<Edge>, prev: MSTStep, c: MSTStep, a: MSTStep) {
    Lightest(es, prev.visited).Some?
    && var e := Lightest(es, prev.visited).value;
    c == MSTStep(prev.step + 1, Some(e), Consider, prev.currentMST, prev.totalWeight, [], [], prev.visited)
    && a == MSTStep(prev.step + 2, Some(e), Add, prev.currentMST + [e], prev.totalWeight + e.weight, [], [],
                    prev.visited + {Unvisited(e, prev.visited)})
  }

  /** The start step at vertex 0 and a run of rounds. */
  ghost predicate PrimLog(es: seq<Edge>, steps: seq<MSTStep>)
    decreases |steps|
  {
    if |steps| <= 1 then steps == [MSTStep(0, None, Start, [], 0, [], [], {0})]
    else (|steps| >= 3 && PrimLog(es, steps[..|steps| - 2])
          && PrimRound(es, steps[|steps| - 3], steps[|steps| - 2], steps[|steps| - 1]))
  }

  /** What every step of Prim's log shows: vertex 0 is visited, every
      visited vertex is one of 0..n-1 and every taken edge has both ends
      visited, one more vertex is visited than edges are taken, and the
      total is the taken edges' weight. */
  ghost predicate PrimShows(n: nat, s: MSTStep) {
    0 in s.visited && Bounded(s.visited, n)
    && |s.visited| == |s.currentMST| + 1 && s.totalWeight == TotalWeight(s.currentMST)
    && forall k :: 0 <= k < |s.currentMST| ==> s.currentMST[k].from in s.visited && s.currentMST[k].to in s.visited
  }

  lemma PrimRoundShows(es: seq<Edge>, n: nat, prev: MSTStep, c: MSTStep, a: MSTStep)
    requires InRange(es, n) && PrimShows(n, prev) && PrimRound(es, prev, c, a)
    ensures PrimShows(n, a) && a.step == prev.step + 2
  {
    var e := Lightest(es, prev.visited).value;
    LightestSpec(es, prev.visited);
    TotalWeightAppend(prev.currentMST, e);
    var k :| 0 <= k < |es| && es[k] == e;
    var u := Unvisited(e, prev.visited);
    assert u < n && u !in prev.visited;
    assert a.currentMST[|prev.currentMST|] == e;
  }

  /** After any run of rounds the steps are numbered in order, and the last
      one shows what every Prim step shows. */
  lemma {:induction false} PrimLogFacts(es: seq<Edge>, n: nat, steps: seq<MSTStep>)
    requires InRange(es, n) && n > 0 && PrimLog(es, steps)
    ensures steps[|steps| - 1].step == |steps| - 1 && PrimShows(n, steps[|steps| - 1])
    decreases |steps|
  {
    if |steps| > 1 {
      PrimLogFacts(es, n, steps[..|steps| - 2]);
      PrimRoundShows(es, n, steps[|steps| - 3], steps[|steps| - 2], steps[|steps| - 1]);
    }
  }

  datatype PrimResult =
    | Spanned(steps: seq<MSTStep>)
      /** Some vertex is out of reach: the app's loop would spin forever
          with this visited set. */
    | Stuck(visited: set<nat>)
      /** No vertex 0: the app fails reading its label. */
    | NoStart

  /** What the loop of lines 280-326 keeps: the log so far, whose last
      step shows the visited set, the tree and its weight. */
  ghost predicate PrimState(edges: seq<Edge>, n: nat, steps: seq<MSTStep>, visited: set<nat>, mst: seq<Edge>, total: int) {
    n > 0 && InRange(edges, n) && PrimLog(edges, steps)
    && var last := steps[|steps| - 1];
    last.step == |steps| - 1 && PrimShows(n, last)
    && last.visited == visited && last.currentMST == mst && last.totalWeight == total
  }

  lemma PrimStateNext(edges: seq<Edge>, n: nat, steps: seq<MSTStep>, visited: set<nat>, mst: seq<Edge>, total: int, c: MSTStep, a: MSTStep)
    requires PrimState(edges, n, steps, visited, mst, total) && PrimRound(edges, steps[|steps| - 1], c, a)
    ensures PrimState(edges, n, steps + [c, a], a.visited, a.currentMST, a.totalWeight)
    ensures |a.visited| == |visited| + 1
  {
    var steps' := steps + [c, a];
    assert steps'[..|steps'| - 2] == steps;
    PrimRoundShows(edges, n, steps[|steps| - 1], c, a);
  }

  /** One pass of the loop of lines 280-326: when some edge crosses, the
      lightest one is shown and taken with its unvisited end. */
  method PrimPass(edges: seq<Edge>, n: nat, steps: seq<MSTStep>, visited: set<nat>, mst: seq<Edge>, total: int)
    returns (found: bool, steps': seq<MSTStep>, visited': set<nat>, mst': seq<Edge>, total': int)
    requires PrimState(edges, n, steps, visited, mst, total)
    ensures !found ==> steps' == steps && visited' == visited && mst' == mst && total' == total
    ensures !found ==> forall k :: 0 <= k < |edges| ==> !Crosses(edges[k], visited)
    ensures found ==> PrimState(edges, n, steps', visited', mst', total') && |visited'| == |visited| + 1
  {
    var minEdge := FindLightest(edges, visited);
    LightestSpec(edges, visited);
    if minEdge.None? {
      return false, steps, visited, mst, total;
    }
    found := true;
    steps', visited', mst', total' := TakeEdge(edges, n, steps, visited, mst, total, minEdge.value);
  }

  /** Lines 295-323: the lightest crossing edge e is shown, then taken with
      its unvisited end. */
  method TakeEdge(edges: seq<Edge>, n: nat, steps: seq<MSTStep>, visited: set<nat>, mst: seq<Edge>, total: int, e: Edge)
    returns (steps': seq<MSTStep>, visited': set<nat>, mst': seq<Edge>, total': int)
    requires PrimState(edges, n, steps, visited, mst, total) && Lightest(edges, visited) == Some(e)
    ensures PrimState(edges, n, steps', visited', mst', total') && |visited'| == |visited| + 1
  {
    var consider := MSTStep(|steps|, Some(e), Consider, mst, total, [], [], visited);
    mst' := mst + [e];
    total' := total + e.weight;
    if e.from !in visited {
      visited' := visited + {e.from};
    } else {
      visited' := visited + {e.to};
    }
    var add := MSTStep(|steps| + 1, Some(e), Add, mst', total', [], [], visited');
    PrimStateNext(edges, n, steps, visited, mst, total, consider, add);
    steps' := steps + [consider, add];
  }

  /** The loop of lines 280-326 from the start step at vertex 0: it ends
      with every vertex visited, or finds that no edge leaves the visited
      set, where the app would go on looping forever. */
  method PrimLoop(edges: seq<Edge>, n: nat) returns (spanned: bool, steps: seq<MSTStep>, visited: set<nat>, mst: seq<Edge>, total: int)
    requires InRange(edges, n) && n > 0
    ensures PrimState(edges, n, steps, visited, mst, total)
    ensures spanned ==> forall v: nat :: v < n ==> v in visited
    ensures !spanned ==> |visited| < n && forall k :: 0 <= k < |edges| ==> !Crosses(edges[k], visited)
  {
    visited := {0};
    mst := [];
    total := 0;
    steps := [MSTStep(0, None, Start, [], 0, [], [], visited)];
    while |visited| < n
      invariant PrimState(edges, n, steps, visited, mst, total)
      decreases n - |visited|
    {
      var found;
      found, steps, visited, mst, total := PrimPass(edges, n, steps, visited, mst, total);
      if !found {
        return false, steps, visited, mst, total;
      }
    }
    BoundedSize(visited, n);
    spanned := true;
  }

  /** Prim's algorithm from vertex 0: rounds until every vertex is
      visited, then a complete step. */
  method PrimSteps(n: nat, edges: seq<Edge>) returns (r: PrimResult)
    requires InRange(edges, n)
    ensures r.NoStart? <==> n == 0
    ensures r.Stuck? ==> (0 in r.visited && Bounded(r.visited, n) && |r.visited| < n
                          && forall k :: 0 <= k < |edges| ==> !Crosses(edges[k], r.visited))
    ensures r.Spanned? ==> (|r.steps| >= 2 && PrimLog(edges, r.steps[..|r.steps| - 1])
                            && var prev := r.steps[|r.steps| - 2];
                            (forall v: nat :: v < n ==> v in prev.visited)
                            && r.steps[|r.steps| - 1] == MSTStep(|r.steps| - 1, None, Complete, prev.currentMST, prev.totalWeight, [], [], prev.visited))
  {
    if n == 0 {
      return NoStart;
    }
    var spanned, steps, visited, mst, total := PrimLoop(edges, n);
    if !spanned {
      return Stuck(visited);
    }
    var complete := MSTStep(|steps|, None, Complete, mst, total, [], [], visited);
    r := Spanned(steps + [complete]);
    assert r.steps[..|r.steps| - 1] == steps;
  }
}
