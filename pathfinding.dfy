/** The grid pathfinding visualizer: a grid of cells, some of them walls,
    searched from a start cell towards a finish cell by breadth-first
    search, depth-first search, Dijkstra's algorithm and A*, each moving
    between the four orthogonal neighbours of a cell. The per-cell fields
    the page mutates (visited flag, distance, previous cell, A* scores)
    are maps and sets over cell positions. */
module Pathfinding {
  import opened Common

  const ROWS: nat := 25
  const COLS: nat := 50

  datatype Pos = Pos(row: nat, col: nat)

  const START: Pos := Pos(12, 10)
  const FINISH: Pos := Pos(12, 40)

  predicate InGrid(rows: nat, cols: nat, p: Pos) {
    p.row < rows && p.col < cols
  }

  /** a and b are orthogonal neighbours. */
  predicate Adjacent(a: Pos, b: Pos) {
    (a.row == b.row && (a.col + 1 == b.col || b.col + 1 == a.col))
    || (a.col == b.col && (a.row + 1 == b.row || b.row + 1 == a.row))
  }

  /** The cells of a rows x cols grid. */
  ghost function Cells(rows: nat, cols: nat): set<Pos> {
    set r: nat, c: nat | r < rows && c < cols :: Pos(r, c)
  }

  lemma CellsHold(rows: nat, cols: nat, p: Pos)
    ensures p in Cells(rows, cols) <==> InGrid(rows, cols, p)
  {
    if InGrid(rows, cols, p) {
      assert p == Pos(p.row, p.col);
    }
  }

  // ---------------------------------------------------------------------
  // Neighbours

  /** The in-grid cells above, below, left and right of p, in that order. */
  function Around(rows: nat, cols: nat, p: Pos): seq<Pos>
    requires InGrid(rows, cols, p)
  {
    (if p.row > 0 then [Pos(p.row - 1, p.col)] else [])
    + (if p.row < rows - 1 then [Pos(p.row + 1, p.col)] else [])
    + (if p.col > 0 then [Pos(p.row, p.col - 1)] else [])
    + (if p.col < cols - 1 then [Pos(p.row, p.col + 1)] else [])
  }

  /** The cells of s that are not in visited, in order. */
  function Unvisited(s: seq<Pos>, visited: set<Pos>): (r: seq<Pos>)
    ensures |r| <= |s|
  {
    if s == [] then []
    else if s[0] in visited then Unvisited(s[1..], visited)
    else [s[0]] + Unvisited(s[1..], visited)
  }

  lemma {:induction false} UnvisitedHolds(s: seq<Pos>, visited: set<Pos>, x: Pos)
    ensures x in Unvisited(s, visited) <==> x in s && x !in visited
  {
    if s != [] {
      UnvisitedHolds(s[1..], visited, x);
      assert s == [s[0]] + s[1..];
    }
  }

  lemma {:induction false} UnvisitedDistinct(s: seq<Pos>, visited: set<Pos>)
    requires Distinct(s)
    ensures Distinct(Unvisited(s, visited))
  {
    if s != [] {
      UnvisitedDistinct(s[1..], visited);
      if s[0] !in visited {
        UnvisitedHolds(s[1..], visited, s[0]);
        assert s[0] !in s[1..];
      }
    }
  }

  /** `getUnvisitedNeighbors`. */
  function Neighbours(rows: nat, cols: nat, p: Pos, visited: set<Pos>): seq<Pos>
    requires InGrid(rows, cols, p)
  {
    Unvisited(Around(rows, cols, p), visited)
  }

  /** The neighbours of p are exactly the unvisited in-grid cells adjacent
      to it, each once. */
  lemma NeighboursExactly(rows: nat, cols: nat, p: Pos, visited: set<Pos>)
    requires InGrid(rows, cols, p)
    ensures forall n :: n in Neighbours(rows, cols, p, visited) <==> InGrid(rows, cols, n) && Adjacent(p, n) && n !in visited
    ensures Distinct(Neighbours(rows, cols, p, visited))
  {
    var a := Around(rows, cols, p);
    forall n
      ensures n in Neighbours(rows, cols, p, visited) <==> InGrid(rows, cols, n) && Adjacent(p, n) && n !in visited
    {
      UnvisitedHolds(a, visited, n);
    }
    UnvisitedDistinct(a, visited);
  }

  // ---------------------------------------------------------------------
  // Walks and search trees

  /** w is a walk of in-grid, non-wall cells, each adjacent to the next. */
  ghost predicate IsWalk(rows: nat, cols: nat, walls: set<Pos>, w: seq<Pos>) {
    |w| > 0
    && (forall i :: 0 <= i < |w| ==> InGrid(rows, cols, w[i]) && w[i] !in walls)
    && (forall i :: 0 < i < |w| ==> Adjacent(w[i - 1], w[i]))
  }

  ghost predicate Reachable(rows: nat, cols: nat, walls: set<Pos>, a: Pos, b: Pos) {
    exists w :: IsWalk(rows, cols, walls, w) && w[0] == a && w[|w| - 1] == b
  }

  /** Every non-wall grid neighbour of a cell of order is in order. */
  ghost predicate Closed(rows: nat, cols: nat, walls: set<Pos>, order: seq<Pos>) {
    forall p, n :: p in order && InGrid(rows, cols, n) && Adjacent(p, n) && n !in walls ==> n in order
  }

  /** A closed set of cells holding the start holds every cell reachable
      from it. */
  lemma {:induction false} ClosedHoldsReachable(rows: nat, cols: nat, walls: set<Pos>, order: seq<Pos>, w: seq<Pos>)
    requires Closed(rows, cols, walls, order) && IsWalk(rows, cols, walls, w) && w[0] in order
    ensures w[|w| - 1] in order
  {
    if |w| > 1 {
      var w' := w[..|w| - 1];
      assert IsWalk(rows, cols, walls, w');
      ClosedHoldsReachable(rows, cols, walls, order, w');
      assert Adjacent(w[|w| - 2], w[|w| - 1]);
    }
  }

  /** Each cell with a previous cell was reached from a cell of order,
      and a cell of order from an earlier one. */
  ghost predicate Tree(order: seq<Pos>, previous: map<Pos, Pos>) {
    (forall p :: p in previous ==> previous[p] in order)
    && forall k :: 0 <= k < |order| && order[k] in previous ==> previous[order[k]] in order[..k]
  }

  /** The shape every search leaves: order visits distinct in-grid
      non-wall cells from start, and previous links each reached cell to
      an adjacent cell visited before it; every visited cell but start has
      a link. */
  ghost predicate SearchTree(rows: nat, cols: nat, walls: set<Pos>, start: Pos, order: seq<Pos>, previous: map<Pos, Pos>) {
    Distinct(order) && (forall p :: p in order ==> InGrid(rows, cols, p) && p !in walls)
    && (order != [] ==> order[0] == start) && start !in previous
    && (forall p :: p in previous ==> InGrid(rows, cols, p) && Adjacent(previous[p], p))
    && Tree(order, previous)
    && forall p :: p in order && p != start ==> p in previous
  }

  /** The position of p in order, or the length when p is not there. */
  ghost function Rank(order: seq<Pos>, p: Pos): nat {
    if p in order then IndexOf(order, p) else |order|
  }

  lemma RankDrops(order: seq<Pos>, previous: map<Pos, Pos>, p: Pos)
    requires Tree(order, previous) && p in previous
    ensures Rank(order, previous[p]) < Rank(order, p)
  {
    var q := previous[p];
    if p in order {
      var k := IndexOf(order, p);
      assert q in order[..k];
      var j :| 0 <= j < k && order[j] == q;
      IndexOfAtMost(order, q, j);
    }
  }

  /** The first index of x is at most any index holding it. */
  lemma {:induction false} IndexOfAtMost(s: seq<Pos>, x: Pos, j: nat)
    requires j < |s| && s[j] == x
    ensures IndexOf(s, x) <= j
  {
    if s[0] != x {
      IndexOfAtMost(s[1..], x, j - 1);
    }
  }

  /** The cells from the root of p's chain of previous cells to p. */
  ghost function Chain(order: seq<Pos>, previous: map<Pos, Pos>, p: Pos): seq<Pos>
    requires Tree(order, previous)
    decreases Rank(order, p)
  {
    if p in previous then
      RankDrops(order, previous, p);
      Chain(order, previous, previous[p]) + [p]
    else [p]
  }

  /** The chain ends at p, starts at a cell without a previous cell, runs
      through adjacent cells, and all of it but p was visited. */
  lemma {:induction false} ChainIsWalk(rows: nat, cols: nat, walls: set<Pos>, start: Pos, order: seq<Pos>, previous: map<Pos, Pos>, p: Pos)
    requires SearchTree(rows, cols, walls, start, order, previous)
    ensures var c := Chain(order, previous, p);
      |c| > 0 && c[|c| - 1] == p && c[0] !in previous
      && (forall i :: 0 <= i < |c| - 1 ==> c[i] in order)
      && (forall i :: 0 < i < |c| ==> Adjacent(c[i - 1], c[i]))
    decreases Rank(order, p)
  {
    if p in previous {
      RankDrops(order, previous, p);
      ChainIsWalk(rows, cols, walls, start, order, previous, previous[p]);
    }
  }

  /** From a visited or reached cell the chain leads back to start, and
      for a visited cell it is a walk of the grid. */
  lemma ChainFromStart(rows: nat, cols: nat, walls: set<Pos>, start: Pos, order: seq<Pos>, previous: map<Pos, Pos>, p: Pos)
    requires SearchTree(rows, cols, walls, start, order, previous)
    requires p in order || p in previous
    ensures Chain(order, previous, p)[0] == start
    ensures p in order ==> IsWalk(rows, cols, walls, Chain(order, previous, p))
  {
    ChainIsWalk(rows, cols, walls, start, order, previous, p);
    var c := Chain(order, previous, p);
    if |c| > 1 {
      assert c[0] in order;
    }
  }

  /** `getNodesInShortestPathOrder`: follow the previous cells back from
      finish, putting each in front. */
  method ShortestPathOrder(ghost order: seq<Pos>, previous: map<Pos, Pos>, finish: Pos) returns (path: seq<Pos>)
    requires Tree(order, previous)
    ensures path == Chain(order, previous, finish)
  {
    var current: Option<Pos> := Some(finish);
    path := [];
    while current.Some?
      invariant current.Some? ==> Chain(order, previous, current.value) + path == Chain(order, previous, finish)
      invariant current.None? ==> path == Chain(order, previous, finish)
      decreases if current.Some? then Rank(order, current.value) + 1 else 0
    {
      var cell := current.value;
      ghost var rest := Chain(order, previous, cell);
      path := [cell] + path;
      if cell in previous {
        RankDrops(order, previous, cell);
        assert rest == Chain(order, previous, previous[cell]) + [cell];
        AppendAssociates(Chain(order, previous, previous[cell]), [cell], path[1..]);
        current := Some(previous[cell]);
      } else {
        current := None;
      }
    }
  }

  /** Marking a new cell of the grid leaves fewer cells unmarked. */
  lemma Fewer(all: set<Pos>, visited: set<Pos>, visited': set<Pos>, x: Pos)
    requires visited <= visited' && x in all && x in visited' && x !in visited
    ensures |all - visited'| < |all - visited|
  {
    var small := all - visited';
    var big := all - visited;
    assert small <= big - {x};
    assert big - {x} == small + ((big - {x}) - small);
    assert big == (big - {x}) + {x};
  }

  /** What each search leaves behind: a search tree from start that is
      empty exactly when start is a wall; it ends at finish when finish was
      visited, and otherwise is closed under moving to a non-wall neighbour,
      and finish, unless a wall, has no link. */
  ghost predicate Outcome(rows: nat, cols: nat, walls: set<Pos>, start: Pos, finish: Pos, order: seq<Pos>, previous: map<Pos, Pos>) {
    SearchTree(rows, cols, walls, start, order, previous)
    && (order == [] <==> start in walls)
    && (finish in order ==> order[|order| - 1] == finish)
    && (finish !in order ==> Closed(rows, cols, walls, order) && (finish in previous ==> finish in walls))
  }

  /** A search visits finish exactly when finish is reachable from start. */
  lemma OutcomeFindsReachable(rows: nat, cols: nat, walls: set<Pos>, start: Pos, finish: Pos, order: seq<Pos>, previous: map<Pos, Pos>)
    requires Outcome(rows, cols, walls, start, finish, order, previous)
    ensures finish in order <==> Reachable(rows, cols, walls, start, finish)
  {
    if finish in order {
      ChainIsWalk(rows, cols, walls, start, order, previous, finish);
      ChainFromStart(rows, cols, walls, start, order, previous, finish);
      var c := Chain(order, previous, finish);
      assert IsWalk(rows, cols, walls, c) && c[0] == start && c[|c| - 1] == finish;
    } else if Reachable(rows, cols, walls, start, finish) {
      var w :| IsWalk(rows, cols, walls, w) && w[0] == start && w[|w| - 1] == finish;
      assert start !in walls;
      assert order[0] == start;
      ClosedHoldsReachable(rows, cols, walls, order, w);
    }
  }

  /** The path read back from finish: when finish is not a wall and not
      start, it has more than one cell exactly when finish is reachable,
      and then it is a walk from start to finish; otherwise it is finish
      alone. */
  lemma PathFromOutcome(rows: nat, cols: nat, walls: set<Pos>, start: Pos, finish: Pos, order: seq<Pos>, previous: map<Pos, Pos>)
    requires Outcome(rows, cols, walls, start, finish, order, previous)
    requires finish !in walls && finish != start
    ensures var c := Chain(order, previous, finish);
      (|c| > 1 <==> Reachable(rows, cols, walls, start, finish))
      && (|c| > 1 ==> c[0] == start && c[|c| - 1] == finish && IsWalk(rows, cols, walls, c))
      && (|c| <= 1 ==> c == [finish])
  {
    OutcomeFindsReachable(rows, cols, walls, start, finish, order, previous);
    ChainIsWalk(rows, cols, walls, start, order, previous, finish);
    if finish in order {
      ChainFromStart(rows, cols, walls, start, order, previous, finish);
    }
  }

  // ---------------------------------------------------------------------
  // Breadth-first search

  /** The inner loop of a breadth-first turn: mark each unvisited
      neighbour, link it to current and enqueue it. */
  method EnqueueAll(current: Pos, ns: seq<Pos>, visited: set<Pos>, queue: seq<Pos>, previous: map<Pos, Pos>)
    returns (visited': set<Pos>, queue': seq<Pos>, previous': map<Pos, Pos>)
    requires Distinct(ns) && forall n :: n in ns ==> n !in visited
    ensures queue' == queue + ns
    ensures forall x :: x in visited' <==> x in visited || x in ns
    ensures forall x :: x in previous' <==> x in previous || x in ns
    ensures forall x :: x in previous' ==> previous'[x] == if x in ns then current else previous[x]
  {
    visited', queue', previous' := visited, queue, previous;
    for k := 0 to |ns|
      invariant queue' == queue + ns[..k]
      invariant forall x :: x in visited' <==> x in visited || x in ns[..k]
      invariant forall x :: x in previous' <==> x in previous || x in ns[..k]
      invariant forall x :: x in previous' ==> previous'[x] == if x in ns[..k] then current else previous[x]
    {
      var neighbour := ns[k];
      assert ns[..k + 1] == ns[..k] + [neighbour];
      if neighbour !in visited' {
        visited' := visited' + {neighbour};
        previous' := previous'[neighbour := current];
        queue' := queue' + [neighbour];
      }
    }
    assert ns[..|ns|] == ns;
  }

  /** The breadth-first loop state: seen lists the marked cells once
      each, start first, and the queue is its part after the head;
      order holds the dequeued cells that are not walls; every marked cell
      but start is linked; and every grid neighbour of a visited cell is
      marked. */
  ghost predicate BfsState(rows: nat, cols: nat, walls: set<Pos>, start: Pos, visited: set<Pos>, queue: seq<Pos>,
                           seen: seq<Pos>, head: nat, order: seq<Pos>, previous: map<Pos, Pos>) {
    |seen| > 0 && seen[0] == start && Distinct(seen) && head <= |seen| && queue == seen[head..]
    && (forall x :: x in visited <==> x in seen)
    && (forall x :: x in visited ==> InGrid(rows, cols, x))
    && (forall x :: x in order ==> x in visited && x !in walls)
    && (forall i :: head <= i < |seen| ==> seen[i] !in order)
    && (forall i :: 0 <= i < head && seen[i] !in walls ==> seen[i] in order)
    && (start in walls ==> order == [] && seen == [start])
    && SearchTree(rows, cols, walls, start, order, previous)
    && (forall x :: x in previous <==> x in visited && x != start)
    && (forall p, n :: p in order && InGrid(rows, cols, n) && Adjacent(p, n) ==> n in visited)
  }

  /** `bfs`: start is marked and enqueued; each turn dequeues a cell,
      skips it if it is a wall, else visits it, stops at finish, and marks,
      links and enqueues its unvisited neighbours. The visited cells form a
      search tree from start; when finish is not reached, every cell
      reachable from start was visited; and no cell is enqueued twice. */
  method Bfs(rows: nat, cols: nat, walls: set<Pos>, start: Pos, finish: Pos)
    returns (order: seq<Pos>, previous: map<Pos, Pos>, ghost enqueued: seq<Pos>)
    requires InGrid(rows, cols, start)
    ensures Outcome(rows, cols, walls, start, finish, order, previous)
    ensures |enqueued| > 0 && enqueued[0] == start && Distinct(enqueued) && forall x :: x in order ==> x in enqueued
  {
    order, previous := [], map[];
    var visited := {start};
    var queue := [start];
    ghost var seen, head := [start], 0;
    CellsHold(rows, cols, start);
    while |queue| > 0
      invariant BfsState(rows, cols, walls, start, visited, queue, seen, head, order, previous)
      invariant finish !in order
      invariant visited <= Cells(rows, cols)
      decreases |Cells(rows, cols) - visited|, |queue|
    {
      var found;
      visited, queue, seen, head, order, previous, found := BfsRound(rows, cols, walls, start, finish, visited, queue, seen, head, order, previous);
      if found {
        enqueued := seen;
        return;
      }
    }
    enqueued := seen;
    BfsExhausted(rows, cols, walls, start, finish, visited, seen, head, order, previous);
  }

  /** When the queue runs out without reaching finish, order is closed and
      every linked cell was dequeued. */
  lemma BfsExhausted(rows: nat, cols: nat, walls: set<Pos>, start: Pos, finish: Pos, visited: set<Pos>,
                     seen: seq<Pos>, head: nat, order: seq<Pos>, previous: map<Pos, Pos>)
    requires BfsState(rows, cols, walls, start, visited, [], seen, head, order, previous) && finish !in order
    ensures Outcome(rows, cols, walls, start, finish, order, previous)
    ensures forall x :: x in order ==> x in seen
  {
    assert seen[..head] == seen;
    if start !in walls {
      assert start in order;
    }
  }

  /** One turn of the breadth-first loop. */
  method BfsRound(rows: nat, cols: nat, walls: set<Pos>, start: Pos, finish: Pos, visited: set<Pos>, queue: seq<Pos>,
                  ghost seen: seq<Pos>, ghost head: nat, order: seq<Pos>, previous: map<Pos, Pos>)
    returns (visited': set<Pos>, queue': seq<Pos>, ghost seen': seq<Pos>, ghost head': nat, order': seq<Pos>,
             previous': map<Pos, Pos>, found: bool)
    requires |queue| > 0 && BfsState(rows, cols, walls, start, visited, queue, seen, head, order, previous)
    requires finish !in order && visited <= Cells(rows, cols)
    ensures found ==> Outcome(rows, cols, walls, start, finish, order', previous')
    ensures found ==> |seen'| > 0 && seen'[0] == start && Distinct(seen') && forall x :: x in order' ==> x in seen'
    ensures !found ==> BfsState(rows, cols, walls, start, visited', queue', seen', head', order', previous') && finish !in order'
    ensures visited' <= Cells(rows, cols)
    ensures |Cells(rows, cols) - visited'| < |Cells(rows, cols) - visited|
      || (|Cells(rows, cols) - visited'| == |Cells(rows, cols) - visited| && |queue'| < |queue|)
  {
    var current := queue[0];
    visited', queue', seen', head', order', previous', found := visited, queue[1..], seen, head + 1, order, previous, false;
    if current in walls {
      BfsSkip(rows, cols, walls, start, visited, queue, seen, head, order, previous);
      return;
    }
    BfsVisit(rows, cols, walls, start, visited, queue, seen, head, order, previous);
    order' := order + [current];
    if current == finish {
      found := true;
      return;
    }
    var ns := Neighbours(rows, cols, current, visited);
    NeighboursExactly(rows, cols, current, visited);
    visited', queue', previous' := EnqueueAll(current, ns, visited, queue', previous);
    seen' := seen + ns;
    BfsEnqueued(rows, cols, walls, start, visited, visited', queue, seen, head, order, previous, previous', ns);
    BfsFewer(rows, cols, visited, visited', ns);
  }

  /** Dequeuing a wall changes nothing but the head. */
  lemma BfsSkip(rows: nat, cols: nat, walls: set<Pos>, start: Pos, visited: set<Pos>, queue: seq<Pos>,
                seen: seq<Pos>, head: nat, order: seq<Pos>, previous: map<Pos, Pos>)
    requires |queue| > 0 && BfsState(rows, cols, walls, start, visited, queue, seen, head, order, previous)
    requires queue[0] in walls
    ensures BfsState(rows, cols, walls, start, visited, queue[1..], seen, head + 1, order, previous)
  {
    assert seen[head] == queue[0];
    assert seen[..head + 1] == seen[..head] + [queue[0]];
  }

  /** Marking the new neighbours leaves fewer cells unmarked, or none are
      new and the state is unchanged. */
  lemma BfsFewer(rows: nat, cols: nat, visited: set<Pos>, visited': set<Pos>, ns: seq<Pos>)
    requires visited <= Cells(rows, cols)
    requires forall n :: n in ns ==> InGrid(rows, cols, n) && n !in visited
    requires forall x :: x in visited' <==> x in visited || x in ns
    ensures visited' <= Cells(rows, cols)
    ensures ns == [] ==> visited' == visited
    ensures ns != [] ==> |Cells(rows, cols) - visited'| < |Cells(rows, cols) - visited|
  {
    forall x | x in ns
      ensures x in Cells(rows, cols)
    {
      CellsHold(rows, cols, x);
    }
    if ns != [] {
      assert ns[0] in ns;
      Fewer(Cells(rows, cols), visited, visited', ns[0]);
    }
  }

  /** Visiting the dequeued non-wall cell extends the search tree. */
  lemma BfsVisit(rows: nat, cols: nat, walls: set<Pos>, start: Pos, visited: set<Pos>, queue: seq<Pos>,
                 seen: seq<Pos>, head: nat, order: seq<Pos>, previous: map<Pos, Pos>)
    requires |queue| > 0 && BfsState(rows, cols, walls, start, visited, queue, seen, head, order, previous)
    requires queue[0] !in walls
    ensures SearchTree(rows, cols, walls, start, order + [queue[0]], previous)
    ensures forall x :: x in order + [queue[0]] ==> x in visited && x !in walls
    ensures forall i :: head + 1 <= i < |seen| ==> seen[i] !in order + [queue[0]]
    ensures forall i :: 0 <= i < head + 1 && seen[i] !in walls ==> seen[i] in order + [queue[0]]
  {
    var c := queue[0];
    var o := order + [c];
    assert seen[head] == c;
    assert seen[..head + 1] == seen[..head] + [c];
    assert c !in seen[..head];
    assert o[..|order|] == order;
    assert forall k :: 0 <= k < |order| ==> o[k] == order[k] && o[..k] == order[..k];
    assert c in visited;
  }

  /** Marking, linking and enqueuing the unvisited neighbours of the
      visited cell keeps the loop state. */
  lemma BfsEnqueued(rows: nat, cols: nat, walls: set<Pos>, start: Pos, visited: set<Pos>, visited': set<Pos>, queue: seq<Pos>,
                    seen: seq<Pos>, head: nat, order: seq<Pos>, previous: map<Pos, Pos>, previous': map<Pos, Pos>, ns: seq<Pos>)
    requires |queue| > 0 && BfsState(rows, cols, walls, start, visited, queue, seen, head, order, previous)
    requires queue[0] !in walls
    requires SearchTree(rows, cols, walls, start, order + [queue[0]], previous)
    requires forall x :: x in order + [queue[0]] ==> x in visited && x !in walls
    requires forall i :: head + 1 <= i < |seen| ==> seen[i] !in order + [queue[0]]
    requires forall i :: 0 <= i < head + 1 && seen[i] !in walls ==> seen[i] in order + [queue[0]]
    requires Distinct(ns) && forall n :: n in ns <==> InGrid(rows, cols, n) && Adjacent(queue[0], n) && n !in visited
    requires forall x :: x in visited' <==> x in visited || x in ns
    requires forall x :: x in previous' <==> x in previous || x in ns
    requires forall x :: x in previous' ==> previous'[x] == if x in ns then queue[0] else previous[x]
    ensures BfsState(rows, cols, walls, start, visited', queue[1..] + ns, seen + ns, head + 1, order + [queue[0]], previous')
  {
    var c := queue[0];
    var o := order + [c];
    BfsSeenExtended(rows, cols, walls, start, visited, visited', queue, seen, head, o, ns);
    TreeExtended(rows, cols, walls, start, visited, o, previous, previous', ns, c);
    BfsClosureExtended(rows, cols, visited, visited', order, c, ns);
  }

  /** The queue and marking facts after enqueuing the new neighbours. */
  lemma BfsSeenExtended(rows: nat, cols: nat, walls: set<Pos>, start: Pos, visited: set<Pos>, visited': set<Pos>, queue: seq<Pos>,
                        seen: seq<Pos>, head: nat, o: seq<Pos>, ns: seq<Pos>)
    requires |seen| > 0 && seen[0] == start && Distinct(seen) && head < |seen| && queue == seen[head..]
    requires forall x :: x in visited <==> x in seen
    requires forall x :: x in visited ==> InGrid(rows, cols, x)
    requires start in walls ==> seen == [start]
    requires forall x :: x in o ==> x in visited && x !in walls
    requires forall i :: head + 1 <= i < |seen| ==> seen[i] !in o
    requires forall i :: 0 <= i < head + 1 && seen[i] !in walls ==> seen[i] in o
    requires Distinct(ns) && forall n :: n in ns ==> InGrid(rows, cols, n) && n !in visited
    requires forall x :: x in visited' <==> x in visited || x in ns
    requires |o| > 0 && start !in walls
    ensures var s := seen + ns;
      |s| > 0 && s[0] == start && Distinct(s) && head + 1 <= |s| && queue[1..] + ns == s[head + 1..]
      && (forall x :: x in visited' <==> x in s)
      && (forall x :: x in visited' ==> InGrid(rows, cols, x))
      && (forall x :: x in o ==> x in visited' && x !in walls)
      && (forall i :: head + 1 <= i < |s| ==> s[i] !in o)
      && (forall i :: 0 <= i < head + 1 && s[i] !in walls ==> s[i] in o)
  {
    var s := seen + ns;
    assert s[head + 1..] == queue[1..] + ns;
    SeenExtended(seen, ns, visited);
    forall i | head + 1 <= i < |s|
      ensures s[i] !in o
    {
      if i >= |seen| {
        assert s[i] in ns;
      }
    }
  }

  /** Every grid neighbour of a visited cell stays marked, and those of the
      newly visited cell are marked now. */
  lemma BfsClosureExtended(rows: nat, cols: nat, visited: set<Pos>, visited': set<Pos>, order: seq<Pos>, c: Pos, ns: seq<Pos>)
    requires forall p, n :: p in order && InGrid(rows, cols, n) && Adjacent(p, n) ==> n in visited
    requires forall n :: InGrid(rows, cols, n) && Adjacent(c, n) && n !in visited ==> n in ns
    requires forall x :: x in visited' <==> x in visited || x in ns
    ensures forall p, n :: p in order + [c] && InGrid(rows, cols, n) && Adjacent(p, n) ==> n in visited'
  {
  }

  /** Appending cells that were not seen keeps seen free of repeats. */
  lemma SeenExtended(seen: seq<Pos>, ns: seq<Pos>, visited: set<Pos>)
    requires Distinct(seen) && Distinct(ns)
    requires forall x :: x in visited <==> x in seen
    requires forall n :: n in ns ==> n !in visited
    ensures Distinct(seen + ns)
  {
    var s := seen + ns;
    forall i, j | 0 <= i < j < |s|
      ensures s[i] != s[j]
    {
      if j >= |seen| && i < |seen| {
        assert s[j] in ns;
        assert s[i] in seen;
      }
    }
  }

  // ---------------------------------------------------------------------
  // Depth-first search

  /** s backwards (`reverse`). */
  function Reversed(s: seq<Pos>): (r: seq<Pos>)
    ensures |r| == |s| && forall x :: x in r <==> x in s
  {
    if s == [] then [] else Reversed(s[1..]) + [s[0]]
  }

  /** The inner loop of a depth-first turn: link each neighbour to current
      and push it, in the order given. */
  method PushAll(current: Pos, ns: seq<Pos>, stack: seq<Pos>, previous: map<Pos, Pos>)
    returns (stack': seq<Pos>, previous': map<Pos, Pos>)
    ensures stack' == stack + ns
    ensures forall x :: x in previous' <==> x in previous || x in ns
    ensures forall x :: x in previous' ==> previous'[x] == if x in ns then current else previous[x]
  {
    stack', previous' := stack, previous;
    for k := 0 to |ns|
      invariant stack' == stack + ns[..k]
      invariant forall x :: x in previous' <==> x in previous || x in ns[..k]
      invariant forall x :: x in previous' ==> previous'[x] == if x in ns[..k] then current else previous[x]
    {
      assert ns[..k + 1] == ns[..k] + [ns[k]];
      previous' := previous'[ns[k] := current];
      stack' := stack' + [ns[k]];
    }
    assert ns[..|ns|] == ns;
  }

  /** The depth-first loop state: the visited cells are those of order;
      every stacked cell is start or linked, and nothing is linked before
      the first visit; every linked cell, and every grid neighbour of a
      visited cell, is visited, a wall or still on the stack. */
  ghost predicate DfsState(rows: nat, cols: nat, walls: set<Pos>, start: Pos, visited: set<Pos>, stack: seq<Pos>,
                           order: seq<Pos>, previous: map<Pos, Pos>) {
    (forall x :: x in visited <==> x in order)
    && (forall x :: x in stack ==> InGrid(rows, cols, x) && (x == start || x in previous))
    && (order == [] ==> previous == map[])
    && SearchTree(rows, cols, walls, start, order, previous)
    && (forall x :: x in previous ==> x in order || x in walls || x in stack)
    && (start in order || start in walls || start in stack)
    && (forall p, n :: p in order && InGrid(rows, cols, n) && Adjacent(p, n) ==> n in order || n in walls || n in stack)
  }

  /** `dfs`: start is pushed; each turn pops a cell, skips it if it was
      visited or is a wall, else visits it, stops at finish, and links and
      pushes its unvisited neighbours in reverse order. */
  method Dfs(rows: nat, cols: nat, walls: set<Pos>, start: Pos, finish: Pos) returns (order: seq<Pos>, previous: map<Pos, Pos>)
    requires InGrid(rows, cols, start)
    ensures Outcome(rows, cols, walls, start, finish, order, previous)
  {
    order, previous := [], map[];
    var visited: set<Pos> := {};
    var stack := [start];
    while |stack| > 0
      invariant DfsState(rows, cols, walls, start, visited, stack, order, previous)
      invariant finish !in order
      invariant visited <= Cells(rows, cols)
      decreases |Cells(rows, cols) - visited|, |stack|
    {
      var found;
      visited, stack, order, previous, found := DfsRound(rows, cols, walls, start, finish, visited, stack, order, previous);
      if found {
        return;
      }
    }
    DfsExhausted(rows, cols, walls, start, finish, visited, order, previous);
  }

  /** With the stack empty, every linked cell and every neighbour of a
      visited cell is visited or a wall. */
  lemma DfsExhausted(rows: nat, cols: nat, walls: set<Pos>, start: Pos, finish: Pos, visited: set<Pos>,
                     order: seq<Pos>, previous: map<Pos, Pos>)
    requires DfsState(rows, cols, walls, start, visited, [], order, previous) && finish !in order
    ensures Outcome(rows, cols, walls, start, finish, order, previous)
  {
  }

  /** One turn of the depth-first loop. */
  method DfsRound(rows: nat, cols: nat, walls: set<Pos>, start: Pos, finish: Pos, visited: set<Pos>, stack: seq<Pos>,
                  order: seq<Pos>, previous: map<Pos, Pos>)
    returns (visited': set<Pos>, stack': seq<Pos>, order': seq<Pos>, previous': map<Pos, Pos>, found: bool)
    requires |stack| > 0 && DfsState(rows, cols, walls, start, visited, stack, order, previous)
    requires finish !in order && visited <= Cells(rows, cols)
    ensures found ==> Outcome(rows, cols, walls, start, finish, order', previous')
    ensures !found ==> DfsState(rows, cols, walls, start, visited', stack', order', previous') && finish !in order'
    ensures visited' <= Cells(rows, cols)
    ensures |Cells(rows, cols) - visited'| < |Cells(rows, cols) - visited|
      || (|Cells(rows, cols) - visited'| == |Cells(rows, cols) - visited| && |stack'| < |stack|)
  {
    var current := stack[|stack| - 1];
    visited', stack', order', previous', found := visited, stack[..|stack| - 1], order, previous, false;
    if current in visited || current in walls {
      DfsSkip(rows, cols, walls, start, visited, stack, order, previous);
      return;
    }
    DfsVisit(rows, cols, walls, start, visited, stack, order, previous);
    visited' := visited + {current};
    order' := order + [current];
    CellsHold(rows, cols, current);
    Fewer(Cells(rows, cols), visited, visited', current);
    if current == finish {
      found := true;
      return;
    }
    var ns := Neighbours(rows, cols, current, visited');
    NeighboursExactly(rows, cols, current, visited');
    var rs := Reversed(ns);
    stack', previous' := PushAll(current, rs, stack', previous);
    TreeExtended(rows, cols, walls, start, visited', order', previous, previous', rs, current);
    DfsPushed(rows, cols, walls, start, visited, stack, order, previous, previous', rs);
  }

  /** Popping a visited cell or a wall keeps the state. */
  lemma DfsSkip(rows: nat, cols: nat, walls: set<Pos>, start: Pos, visited: set<Pos>, stack: seq<Pos>,
                order: seq<Pos>, previous: map<Pos, Pos>)
    requires |stack| > 0 && DfsState(rows, cols, walls, start, visited, stack, order, previous)
    requires stack[|stack| - 1] in visited || stack[|stack| - 1] in walls
    ensures DfsState(rows, cols, walls, start, visited, stack[..|stack| - 1], order, previous)
  {
    assert stack == stack[..|stack| - 1] + [stack[|stack| - 1]];
  }

  /** Visiting the popped cell extends the search tree. */
  lemma DfsVisit(rows: nat, cols: nat, walls: set<Pos>, start: Pos, visited: set<Pos>, stack: seq<Pos>,
                 order: seq<Pos>, previous: map<Pos, Pos>)
    requires |stack| > 0 && DfsState(rows, cols, walls, start, visited, stack, order, previous)
    requires stack[|stack| - 1] !in visited && stack[|stack| - 1] !in walls
    ensures SearchTree(rows, cols, walls, start, order + [stack[|stack| - 1]], previous)
  {
    var c := stack[|stack| - 1];
    assert c in stack;
    TreeVisit(rows, cols, walls, start, order, previous, c);
  }

  /** Linking and pushing the unvisited neighbours of the visited cell
      keeps the loop state. */
  lemma DfsPushed(rows: nat, cols: nat, walls: set<Pos>, start: Pos, visited: set<Pos>, stack: seq<Pos>,
                  order: seq<Pos>, previous: map<Pos, Pos>, previous': map<Pos, Pos>, rs: seq<Pos>)
    requires |stack| > 0 && DfsState(rows, cols, walls, start, visited, stack, order, previous)
    requires stack[|stack| - 1] !in visited && stack[|stack| - 1] !in walls
    requires SearchTree(rows, cols, walls, start, order + [stack[|stack| - 1]], previous')
    requires forall n :: n in rs <==> InGrid(rows, cols, n) && Adjacent(stack[|stack| - 1], n) && n !in visited + {stack[|stack| - 1]}
    requires forall x :: x in previous' <==> x in previous || x in rs
    ensures DfsState(rows, cols, walls, start, visited + {stack[|stack| - 1]}, stack[..|stack| - 1] + rs,
                     order + [stack[|stack| - 1]], previous')
  {
    var c := stack[|stack| - 1];
    var rest := stack[..|stack| - 1];
    forall x | x in stack
      ensures x in rest || x == c
    {
      InitOrLast(stack, x);
    }
    assert (order + [c])[0] == start;
  }

  // ---------------------------------------------------------------------
  // Sorting cells by a score (Dijkstra's distance, A*'s f-score)

  /** a sorts no later than b under the comparator `a.score - b.score`: a
      missing score is infinite, an infinite score is later than every
      finite one, and two infinite scores compare equal (their difference
      is NaN, which the sort reads as 0). */
  predicate NoLater(score: map<Pos, nat>, a: Pos, b: Pos) {
    b !in score || (a in score && score[a] <= score[b])
  }

  /** a and b compare equal. */
  predicate Tie(score: map<Pos, nat>, a: Pos, b: Pos) {
    NoLater(score, a, b) && NoLater(score, b, a)
  }

  predicate SortedBy(score: map<Pos, nat>, s: seq<Pos>) {
    forall i, j :: 0 <= i < j < |s| ==> NoLater(score, s[i], s[j])
  }

  /** x placed before the first cell it does not sort after. */
  function Insert(score: map<Pos, nat>, x: Pos, s: seq<Pos>): seq<Pos> {
    if s == [] then [x]
    else if NoLater(score, x, s[0]) then [x] + s
    else [s[0]] + Insert(score, x, s[1..])
  }

  /** `sort((a, b) => a.score - b.score)`, a stable sort. */
  function SortByScore(score: map<Pos, nat>, s: seq<Pos>): seq<Pos> {
    if s == [] then [] else Insert(score, s[0], SortByScore(score, s[1..]))
  }

  /** The cells of s that tie with c, in order. */
  function Tied(score: map<Pos, nat>, s: seq<Pos>, c: Pos): seq<Pos> {
    if s == [] then [] else (if Tie(score, s[0], c) then [s[0]] else []) + Tied(score, s[1..], c)
  }

  lemma {:induction false} InsertSorted(score: map<Pos, nat>, x: Pos, s: seq<Pos>)
    requires SortedBy(score, s)
    ensures SortedBy(score, Insert(score, x, s))
    ensures multiset(Insert(score, x, s)) == multiset(s) + multiset{x}
  {
    if s != [] && !NoLater(score, x, s[0]) {
      assert SortedBy(score, s[1..]);
      InsertSorted(score, x, s[1..]);
      var r := Insert(score, x, s[1..]);
      forall j | 0 <= j < |r|
        ensures NoLater(score, s[0], r[j])
      {
        assert r[j] in multiset(s[1..]) + multiset{x};
        if r[j] != x {
          var i :| 0 <= i < |s[1..]| && s[1..][i] == r[j];
          assert s[i + 1] == r[j];
        }
      }
      assert s == [s[0]] + s[1..];
    }
  }

  /** Inserting x puts it at the front of the cells tying with it and
      leaves every other tie class as it was. */
  lemma {:induction false} InsertTied(score: map<Pos, nat>, x: Pos, s: seq<Pos>, c: Pos)
    ensures Tied(score, Insert(score, x, s), c) == (if Tie(score, x, c) then [x] else []) + Tied(score, s, c)
  {
    if s != [] && !NoLater(score, x, s[0]) {
      InsertTied(score, x, s[1..], c);
      assert Insert(score, x, s)[1..] == Insert(score, x, s[1..]);
      if Tie(score, x, c) {
        assert !Tie(score, s[0], c);
      }
    } else if s != [] {
      assert Insert(score, x, s)[1..] == s;
    }
  }

  /** The sort returns the same cells, in score order. */
  lemma {:induction false} SortByScoreSorted(score: map<Pos, nat>, s: seq<Pos>)
    ensures SortedBy(score, SortByScore(score, s))
    ensures multiset(SortByScore(score, s)) == multiset(s)
  {
    if s != [] {
      SortByScoreSorted(score, s[1..]);
      InsertSorted(score, s[0], SortByScore(score, s[1..]));
      assert s == [s[0]] + s[1..];
    }
  }

  /** The sort is stable: the cells of every tie class keep their order. */
  lemma {:induction false} SortByScoreStable(score: map<Pos, nat>, s: seq<Pos>, c: Pos)
    ensures Tied(score, SortByScore(score, s), c) == Tied(score, s, c)
  {
    if s != [] {
      SortByScoreStable(score, s[1..], c);
      InsertTied(score, s[0], SortByScore(score, s[1..]), c);
    }
  }

  /** The sorted cells of a list without repeats: the same cells, none
      repeated, and when the first has no score neither has any other. */
  lemma SortedCells(score: map<Pos, nat>, s: seq<Pos>)
    requires Distinct(s) && |s| > 0
    ensures var r := SortByScore(score, s);
      |r| == |s| && Distinct(r) && (forall x :: x in r <==> x in s)
      && (forall i :: 0 <= i < |r| ==> NoLater(score, r[0], r[i]))
      && (r[0] !in score ==> forall x :: x in r ==> x !in score)
  {
    var r := SortByScore(score, s);
    SortByScoreSorted(score, s);
    assert |r| == |multiset(r)| == |multiset(s)| == |s|;
    PermutedDistinct(s, r);
    forall x
      ensures x in r <==> x in s
    {
      assert x in r <==> x in multiset(r);
      assert x in s <==> x in multiset(s);
    }
    if r[0] !in score {
      forall x | x in r
        ensures x !in score
      {
        var i :| 0 <= i < |r| && r[i] == x;
        if i > 0 {
          assert NoLater(score, r[0], r[i]);
        }
      }
    }
  }

  // ---------------------------------------------------------------------
  // Dijkstra's algorithm

  /** The first `cols` cells of row r, left to right. */
  function RowCells(r: nat, cols: nat): seq<Pos> {
    if cols == 0 then [] else RowCells(r, cols - 1) + [Pos(r, cols - 1)]
  }

  /** The cells of the first `rows` rows, row by row. */
  function RowMajor(rows: nat, cols: nat): seq<Pos> {
    if rows == 0 then [] else RowMajor(rows - 1, cols) + RowCells(rows - 1, cols)
  }

  lemma {:induction false} RowCellsHold(r: nat, cols: nat)
    ensures forall x :: x in RowCells(r, cols) <==> x.row == r && x.col < cols
    ensures Distinct(RowCells(r, cols))
  {
    if cols > 0 {
      RowCellsHold(r, cols - 1);
    }
  }

  /** The row-major list holds every cell of the grid once. */
  lemma {:induction false} RowMajorHolds(rows: nat, cols: nat)
    ensures forall x :: x in RowMajor(rows, cols) <==> InGrid(rows, cols, x)
    ensures Distinct(RowMajor(rows, cols))
  {
    if rows > 0 {
      RowMajorHolds(rows - 1, cols);
      RowCellsHold(rows - 1, cols);
      var a, b := RowMajor(rows - 1, cols), RowCells(rows - 1, cols);
      forall i, j | 0 <= i < j < |a + b|
        ensures (a + b)[i] != (a + b)[j]
      {
        if i < |a| && j >= |a| {
          assert (a + b)[i] in a && (a + b)[j] in b;
        }
      }
    }
  }

  /** `getAllNodes`: the cells, row by row. */
  method AllNodes(rows: nat, cols: nat) returns (nodes: seq<Pos>)
    ensures nodes == RowMajor(rows, cols)
  {
    nodes := [];
    for r := 0 to rows
      invariant nodes == RowMajor(r, cols)
    {
      for c := 0 to cols
        invariant nodes == RowMajor(r, cols) + RowCells(r, c)
      {
        nodes := nodes + [Pos(r, c)];
      }
    }
  }

  /** The distances and links agree: start is at 0 and unlinked, every
      other cell with a distance is linked, and a linked cell is one
      further than the cell it is linked to. */
  ghost predicate Distances(start: Pos, dist: map<Pos, nat>, previous: map<Pos, Pos>) {
    start in dist && dist[start] == 0 && start !in previous
    && (forall p :: p in dist ==> p == start || p in previous)
    && forall p :: p in previous ==> p in dist && previous[p] in dist && dist[p] == dist[previous[p]] + 1
  }

  /** The path read back from a cell with a distance has one cell more
      than that distance. */
  lemma {:induction false} ChainLength(order: seq<Pos>, previous: map<Pos, Pos>, start: Pos, dist: map<Pos, nat>, p: Pos)
    requires Tree(order, previous) && Distances(start, dist, previous) && p in dist
    ensures |Chain(order, previous, p)| == dist[p] + 1
    decreases Rank(order, p)
  {
    if p in previous {
      RankDrops(order, previous, p);
      ChainLength(order, previous, start, dist, previous[p]);
    }
  }

  /** `updateUnvisitedNeighbors`: each neighbour gets the distance of
      current plus one and is linked to current, whatever it held. */
  method UpdateNeighbours(current: Pos, ns: seq<Pos>, dist: map<Pos, nat>, previous: map<Pos, Pos>)
    returns (dist': map<Pos, nat>, previous': map<Pos, Pos>)
    requires current in dist && current !in ns
    ensures forall x :: x in dist' <==> x in dist || x in ns
    ensures forall x :: x in dist' ==> dist'[x] == if x in ns then dist[current] + 1 else dist[x]
    ensures forall x :: x in previous' <==> x in previous || x in ns
    ensures forall x :: x in previous' ==> previous'[x] == if x in ns then current else previous[x]
  {
    dist', previous' := dist, previous;
    for k := 0 to |ns|
      invariant forall x :: x in dist' <==> x in dist || x in ns[..k]
      invariant forall x :: x in dist' ==> dist'[x] == if x in ns[..k] then dist[current] + 1 else dist[x]
      invariant forall x :: x in previous' <==> x in previous || x in ns[..k]
      invariant forall x :: x in previous' ==> previous'[x] == if x in ns[..k] then current else previous[x]
    {
      assert ns[..k + 1] == ns[..k] + [ns[k]];
      dist' := dist'[ns[k] := dist'[current] + 1];
      previous' := previous'[ns[k] := current];
    }
    assert ns[..|ns|] == ns;
  }

  /** Dijkstra's loop state: the unvisited list holds each grid cell not
      yet taken once, and a taken cell was visited or is a wall; nothing is
      linked before the first visit; the distances agree with the links;
      and every grid neighbour of a visited cell has a distance. */
  ghost predicate DijkstraState(rows: nat, cols: nat, walls: set<Pos>, start: Pos, remaining: seq<Pos>,
                                dist: map<Pos, nat>, previous: map<Pos, Pos>, order: seq<Pos>) {
    InGrid(rows, cols, start) && Distinct(remaining)
    && (forall x :: x in remaining ==> InGrid(rows, cols, x) && x !in order)
    && (forall x :: InGrid(rows, cols, x) ==> x in remaining || x in order || x in walls)
    && (order == [] ==> previous == map[])
    && SearchTree(rows, cols, walls, start, order, previous)
    && Distances(start, dist, previous)
    && (forall p, n :: p in order && InGrid(rows, cols, n) && Adjacent(p, n) ==> n in dist)
  }

  /** `dijkstra`: start gets distance 0 and every cell is unvisited; each
      turn sorts the unvisited cells by distance and takes the first,
      skips it if it is a wall, stops if it has no distance, else visits
      it, stops at finish, and updates its unvisited neighbours. The
      visited cells form a search tree whose links agree with the
      distances. */
  method Dijkstra(rows: nat, cols: nat, walls: set<Pos>, start: Pos, finish: Pos)
    returns (order: seq<Pos>, previous: map<Pos, Pos>, dist: map<Pos, nat>)
    requires InGrid(rows, cols, start)
    ensures Outcome(rows, cols, walls, start, finish, order, previous)
    ensures Distances(start, dist, previous)
  {
    order, previous, dist := [], map[], map[start := 0];
    var visited: set<Pos> := {};
    var remaining := AllNodes(rows, cols);
    RowMajorHolds(rows, cols);
    while |remaining| > 0
      invariant DijkstraState(rows, cols, walls, start, remaining, dist, previous, order)
      invariant finish !in order && forall x :: x in visited <==> x in order
      decreases |remaining|
    {
      var stop;
      visited, remaining, order, previous, dist, stop := DijkstraRound(rows, cols, walls, start, finish, visited, remaining, dist, previous, order);
      if stop {
        return;
      }
    }
  }

  /** One turn of Dijkstra's loop. */
  method DijkstraRound(rows: nat, cols: nat, walls: set<Pos>, start: Pos, finish: Pos, visited: set<Pos>, remaining: seq<Pos>,
                       dist: map<Pos, nat>, previous: map<Pos, Pos>, order: seq<Pos>)
    returns (visited': set<Pos>, remaining': seq<Pos>, order': seq<Pos>, previous': map<Pos, Pos>, dist': map<Pos, nat>, stop: bool)
    requires |remaining| > 0 && DijkstraState(rows, cols, walls, start, remaining, dist, previous, order)
    requires finish !in order && forall x :: x in visited <==> x in order
    ensures stop ==> Outcome(rows, cols, walls, start, finish, order', previous') && Distances(start, dist', previous')
    ensures !stop ==> DijkstraState(rows, cols, walls, start, remaining', dist', previous', order') && finish !in order'
    ensures !stop ==> forall x :: x in visited' <==> x in order'
    ensures |remaining'| < |remaining|
  {
    var sorted := SortByScore(dist, remaining);
    SortedCells(dist, remaining);
    var closest := sorted[0];
    visited', remaining', order', previous', dist', stop := visited, sorted[1..], order, previous, dist, false;
    DijkstraTaken(rows, cols, walls, start, remaining, sorted, dist, previous, order);
    if closest in walls {
      return;
    }
    if closest !in dist {
      stop := true;
      DijkstraUnreached(rows, cols, walls, start, finish, remaining, sorted, dist, previous, order);
      return;
    }
    TreeVisit(rows, cols, walls, start, order, previous, closest);
    visited' := visited + {closest};
    order' := order + [closest];
    if closest == finish {
      stop := true;
      return;
    }
    var ns := Neighbours(rows, cols, closest, visited');
    NeighboursExactly(rows, cols, closest, visited');
    dist', previous' := UpdateNeighbours(closest, ns, dist, previous);
    TreeExtended(rows, cols, walls, start, visited', order', previous, previous', ns, closest);
    DijkstraUpdated(rows, cols, walls, start, visited', sorted[1..], dist, dist', previous, previous', order', ns);
  }

  /** Taking the first sorted cell: the rest lists the other untaken
      cells once each. */
  lemma DijkstraTaken(rows: nat, cols: nat, walls: set<Pos>, start: Pos, remaining: seq<Pos>, sorted: seq<Pos>,
                      dist: map<Pos, nat>, previous: map<Pos, Pos>, order: seq<Pos>)
    requires DijkstraState(rows, cols, walls, start, remaining, dist, previous, order)
    requires |sorted| > 0 && Distinct(sorted) && forall x :: x in sorted <==> x in remaining
    ensures sorted[0] !in order && InGrid(rows, cols, sorted[0]) && sorted[0] !in sorted[1..]
    ensures Distinct(sorted[1..]) && forall x :: x in sorted[1..] ==> InGrid(rows, cols, x) && x !in order
    ensures forall x :: InGrid(rows, cols, x) ==> x in sorted[1..] || x == sorted[0] || x in order || x in walls
    ensures sorted[0] in walls ==> DijkstraState(rows, cols, walls, start, sorted[1..], dist, previous, order)
  {
    forall x | x in sorted
      ensures x in sorted[1..] || x == sorted[0]
    {
      var i :| 0 <= i < |sorted| && sorted[i] == x;
      if i > 0 {
        assert sorted[1..][i - 1] == x;
      }
    }
  }

  /** When the first sorted cell has no distance, no untaken cell has
      one, so the search is over. */
  lemma DijkstraUnreached(rows: nat, cols: nat, walls: set<Pos>, start: Pos, finish: Pos, remaining: seq<Pos>, sorted: seq<Pos>,
                          dist: map<Pos, nat>, previous: map<Pos, Pos>, order: seq<Pos>)
    requires DijkstraState(rows, cols, walls, start, remaining, dist, previous, order) && finish !in order
    requires |sorted| > 0 && (forall x :: x in sorted <==> x in remaining) && sorted[0] !in dist
    requires forall x :: x in sorted ==> x !in dist
    ensures Outcome(rows, cols, walls, start, finish, order, previous) && Distances(start, dist, previous)
  {
    assert start in remaining ==> start in sorted;
  }

  /** Updating the neighbours of the visited cell keeps the loop state. */
  lemma DijkstraUpdated(rows: nat, cols: nat, walls: set<Pos>, start: Pos, visited: set<Pos>, remaining: seq<Pos>,
                        dist: map<Pos, nat>, dist': map<Pos, nat>, previous: map<Pos, Pos>, previous': map<Pos, Pos>,
                        order: seq<Pos>, ns: seq<Pos>)
    requires InGrid(rows, cols, start) && |order| > 0 && SearchTree(rows, cols, walls, start, order, previous')
    requires forall x :: x in visited <==> x in order
    requires Distinct(remaining) && forall x :: x in remaining ==> InGrid(rows, cols, x) && x !in order
    requires forall x :: InGrid(rows, cols, x) ==> x in remaining || x in order || x in walls
    requires Distances(start, dist, previous) && order[|order| - 1] in dist
    requires forall x :: x in order ==> x in dist
    requires forall p, n :: p in order[..|order| - 1] && InGrid(rows, cols, n) && Adjacent(p, n) ==> n in dist
    requires forall n :: n in ns <==> InGrid(rows, cols, n) && Adjacent(order[|order| - 1], n) && n !in visited
    requires forall x :: x in dist' <==> x in dist || x in ns
    requires forall x :: x in dist' ==> dist'[x] == if x in ns then dist[order[|order| - 1]] + 1 else dist[x]
    requires forall x :: x in previous' <==> x in previous || x in ns
    requires forall x :: x in previous' ==> previous'[x] == if x in ns then order[|order| - 1] else previous[x]
    ensures DijkstraState(rows, cols, walls, start, remaining, dist', previous', order)
  {
    var c := order[|order| - 1];
    assert c !in ns;
    forall p, n | p in order && InGrid(rows, cols, n) && Adjacent(p, n)
      ensures n in dist'
    {
      InitOrLast(order, p);
    }
  }

  // ---------------------------------------------------------------------
  // A*

  /** |x - y|. */
  function Gap(x: nat, y: nat): nat {
    if x <= y then y - x else x - y
  }

  /** `heuristic`: the Manhattan distance between a and b. */
  function Heuristic(a: Pos, b: Pos): nat {
    Gap(a.row, b.row) + Gap(a.col, b.col)
  }

  /** The heuristic is zero exactly at the target. */
  lemma HeuristicZero(a: Pos, b: Pos)
    ensures Heuristic(a, b) == 0 <==> a == b
  {
  }

  /** The heuristic changes by exactly one between neighbours, so it is
      consistent. */
  lemma HeuristicConsistent(a: Pos, b: Pos, target: Pos)
    requires Adjacent(a, b)
    ensures Heuristic(a, target) == Heuristic(b, target) + 1 || Heuristic(b, target) == Heuristic(a, target) + 1
  {
  }

  /** The heuristic never overestimates: a walk from a to b has at least
      Heuristic(a, b) steps. */
  lemma {:induction false} HeuristicAdmissible(rows: nat, cols: nat, walls: set<Pos>, w: seq<Pos>)
    requires IsWalk(rows, cols, walls, w)
    ensures Heuristic(w[0], w[|w| - 1]) <= |w| - 1
  {
    if |w| > 1 {
      var w' := w[..|w| - 1];
      assert IsWalk(rows, cols, walls, w');
      HeuristicAdmissible(rows, cols, walls, w');
      HeuristicConsistent(w[|w| - 1], w[|w| - 2], w[0]);
      assert Heuristic(w[0], w[|w| - 1]) == Heuristic(w[|w| - 1], w[0]);
      assert Heuristic(w[0], w[|w| - 2]) == Heuristic(w[|w| - 2], w[0]);
    }
  }

  /** A path through current would be shorter than n's known one (a
      missing score is infinite). */
  predicate Improves(g: map<Pos, nat>, current: Pos, n: Pos)
    requires current in g
  {
    n !in g || g[current] + 1 < g[n]
  }

  /** The neighbours the relaxation adds to the open list: those it
      improves that were not open, in order. */
  function Fresh(ns: seq<Pos>, open: seq<Pos>, g: map<Pos, nat>, current: Pos): (r: seq<Pos>)
    requires current in g
    ensures forall x :: x in r <==> x in ns && Improves(g, current, x) && x !in open
  {
    if ns == [] then []
    else
      var last := ns[|ns| - 1];
      var r := Fresh(ns[..|ns| - 1], open, g, current);
      assert forall x :: x in ns <==> x in ns[..|ns| - 1] || x == last by {
        forall x | x in ns
          ensures x in ns[..|ns| - 1] || x == last
        {
          InitOrLast(ns, x);
        }
      }
      if Improves(g, current, last) && last !in open then r + [last] else r
  }

  /** The new cells are new to the list and to each other. */
  lemma {:induction false} FreshDistinct(ns: seq<Pos>, open: seq<Pos>, g: map<Pos, nat>, current: Pos)
    requires current in g && Distinct(ns) && Distinct(open)
    ensures Distinct(open + Fresh(ns, open, g, current))
  {
    var f := Fresh(ns, open, g, current);
    if ns != [] {
      var init := ns[..|ns| - 1];
      FreshDistinct(init, open, g, current);
      var r := Fresh(init, open, g, current);
      var last := ns[|ns| - 1];
      if f != r {
        assert last !in init;
        assert last !in open + r;
        assert open + f == (open + r) + [last];
      }
    }
  }

  /** The score fields of the cells that the relaxation writes. */
  datatype Scores = Scores(open: seq<Pos>, g: map<Pos, nat>, f: map<Pos, nat>, previous: map<Pos, Pos>)

  /** One neighbour n of the relaxation, judged on the scores so far. */
  function RelaxOne(st: Scores, current: Pos, finish: Pos, n: Pos): (r: Scores)
    requires current in st.g
    ensures current in r.g
  {
    if n !in st.g || st.g[current] + 1 < st.g[n] then
      var t := st.g[current] + 1;
      Scores(if n in st.open then st.open else st.open + [n],
             st.g[n := t], st.f[n := t + Heuristic(n, finish)], st.previous[n := current])
    else st
  }

  /** The neighbours of ns relaxed one after another. */
  function RelaxAll(st: Scores, current: Pos, finish: Pos, ns: seq<Pos>): (r: Scores)
    requires current in st.g
    ensures current in r.g
  {
    if ns == [] then st
    else RelaxOne(RelaxAll(st, current, finish, ns[..|ns| - 1]), current, finish, ns[|ns| - 1])
  }

  /** Relaxing distinct neighbours other than current gives each neighbour
      that current improves the g-score of current plus one, and leaves
      every other g-score alone. */
  lemma {:induction false} RelaxAllG(st: Scores, current: Pos, finish: Pos, ns: seq<Pos>)
    requires current in st.g && current !in ns && Distinct(ns)
    ensures var r := RelaxAll(st, current, finish, ns);
      r.g[current] == st.g[current]
      && (forall x :: x in r.g <==> x in st.g || x in ns)
      && forall x :: x in r.g ==> r.g[x] == if x in ns && Improves(st.g, current, x) then st.g[current] + 1 else st.g[x]
  {
    if ns != [] {
      var init := ns[..|ns| - 1];
      RelaxAllG(st, current, finish, init);
      InitAndLast(ns);
    }
  }

  /** The f-scores: an improved neighbour gets its new g-score plus the
      heuristic. */
  lemma {:induction false} RelaxAllF(st: Scores, current: Pos, finish: Pos, ns: seq<Pos>)
    requires current in st.g && current !in ns && Distinct(ns)
    ensures var r := RelaxAll(st, current, finish, ns);
      (forall x :: x in r.f <==> x in st.f || (x in ns && Improves(st.g, current, x)))
      && forall x :: x in r.f ==> r.f[x] == if x in ns && Improves(st.g, current, x) then st.g[current] + 1 + Heuristic(x, finish) else st.f[x]
  {
    if ns != [] {
      var init := ns[..|ns| - 1];
      RelaxAllF(st, current, finish, init);
      RelaxAllG(st, current, finish, init);
      InitAndLast(ns);
    }
  }

  /** The links: an improved neighbour is linked to current. */
  lemma {:induction false} RelaxAllPrevious(st: Scores, current: Pos, finish: Pos, ns: seq<Pos>)
    requires current in st.g && current !in ns && Distinct(ns)
    ensures var r := RelaxAll(st, current, finish, ns);
      (forall x :: x in r.previous <==> x in st.previous || (x in ns && Improves(st.g, current, x)))
      && forall x :: x in r.previous ==> r.previous[x] == if x in ns && Improves(st.g, current, x) then current else st.previous[x]
  {
    if ns != [] {
      var init := ns[..|ns| - 1];
      RelaxAllPrevious(st, current, finish, init);
      RelaxAllG(st, current, finish, init);
      InitAndLast(ns);
    }
  }

  /** The open list: the improved neighbours not already open are
      appended in order. */
  lemma {:induction false} RelaxAllOpen(st: Scores, current: Pos, finish: Pos, ns: seq<Pos>)
    requires current in st.g && current !in ns && Distinct(ns)
    ensures RelaxAll(st, current, finish, ns).open == st.open + Fresh(ns, st.open, st.g, current)
  {
    if ns != [] {
      var init := ns[..|ns| - 1];
      RelaxAllOpen(st, current, finish, init);
      RelaxAllG(st, current, finish, init);
      InitAndLast(ns);
    }
  }

  /** The inner loop of an A* turn: for each neighbour that the path
      through current improves, link it, set its g-score to current's plus
      one and its f-score to that plus the heuristic, and add it to the
      open list unless it is there. */
  method Relax(current: Pos, finish: Pos, ns: seq<Pos>, open: seq<Pos>, g: map<Pos, nat>, f: map<Pos, nat>, previous: map<Pos, Pos>)
    returns (open': seq<Pos>, g': map<Pos, nat>, f': map<Pos, nat>, previous': map<Pos, Pos>)
    requires current in g && current !in ns && Distinct(ns)
    ensures open' == open + Fresh(ns, open, g, current)
    ensures forall x :: x in g' <==> x in g || x in ns
    ensures forall x :: x in g' ==> g'[x] == if x in ns && Improves(g, current, x) then g[current] + 1 else g[x]
    ensures forall x :: x in f' <==> x in f || (x in ns && Improves(g, current, x))
    ensures forall x :: x in f' ==> f'[x] == if x in ns && Improves(g, current, x) then g[current] + 1 + Heuristic(x, finish) else f[x]
    ensures forall x :: x in previous' <==> x in previous || (x in ns && Improves(g, current, x))
    ensures forall x :: x in previous' ==> previous'[x] == if x in ns && Improves(g, current, x) then current else previous[x]
  {
    ghost var st := Scores(open, g, f, previous);
    open', g', f', previous' := open, g, f, previous;
    for k := 0 to |ns|
      invariant Scores(open', g', f', previous') == RelaxAll(st, current, finish, ns[..k])
    {
      var neighbour := ns[k];
      assert ns[..k + 1][..k] == ns[..k];
      var tentative := g'[current] + 1;
      if neighbour !in g' || tentative < g'[neighbour] {
        previous' := previous'[neighbour := current];
        g' := g'[neighbour := tentative];
        f' := f'[neighbour := tentative + Heuristic(neighbour, finish)];
        if neighbour !in open' {
          open' := open' + [neighbour];
        }
      }
    }
    assert ns[..|ns|] == ns;
    RelaxAllG(st, current, finish, ns);
    RelaxAllF(st, current, finish, ns);
    RelaxAllPrevious(st, current, finish, ns);
    RelaxAllOpen(st, current, finish, ns);
  }

  /** The last cell of a list without repeats is not in the rest, and a
      cell is in the list exactly when it is in the rest or last. */
  lemma InitAndLast(s: seq<Pos>)
    requires Distinct(s) && |s| > 0
    ensures Distinct(s[..|s| - 1]) && s[|s| - 1] !in s[..|s| - 1]
    ensures forall x :: x in s <==> x in s[..|s| - 1] || x == s[|s| - 1]
  {
    forall x | x in s
      ensures x in s[..|s| - 1] || x == s[|s| - 1]
    {
      InitOrLast(s, x);
    }
  }

  /** The A* loop state: the open list holds untaken cells with scores,
      once each; a scored cell is open, visited or a wall; f is g plus the
      heuristic; nothing is linked before the first visit; the g-scores
      agree with the links; and every grid neighbour of a visited cell is
      scored. */
  ghost predicate AStarState(rows: nat, cols: nat, walls: set<Pos>, start: Pos, finish: Pos, open: seq<Pos>,
                             g: map<Pos, nat>, f: map<Pos, nat>, previous: map<Pos, Pos>, order: seq<Pos>) {
    Distinct(open)
    && (forall x :: x in open ==> InGrid(rows, cols, x) && x !in order && x in g)
    && (forall x :: x in g ==> x in open || x in order || x in walls)
    && ScoredTree(rows, cols, walls, start, finish, g, f, previous, order)
  }

  /** The A* facts that do not mention the open list. */
  ghost predicate ScoredTree(rows: nat, cols: nat, walls: set<Pos>, start: Pos, finish: Pos,
                             g: map<Pos, nat>, f: map<Pos, nat>, previous: map<Pos, Pos>, order: seq<Pos>) {
    (forall x :: x in g ==> x in f && f[x] == g[x] + Heuristic(x, finish))
    && (order == [] ==> previous == map[])
    && SearchTree(rows, cols, walls, start, order, previous)
    && Distances(start, g, previous)
    && (forall p, n :: p in order && InGrid(rows, cols, n) && Adjacent(p, n) ==> n in g)
  }

  /** `aStar`: start is scored and opened; each turn sorts the open list
      by f-score and takes the first, skips it if it is a wall, else
      visits it, stops at finish, and relaxes its unvisited neighbours.
      The visited cells form a search tree whose links agree with the
      g-scores, and every f-score is the g-score plus the heuristic. */
  method AStar(rows: nat, cols: nat, walls: set<Pos>, start: Pos, finish: Pos)
    returns (order: seq<Pos>, previous: map<Pos, Pos>, g: map<Pos, nat>, f: map<Pos, nat>)
    requires InGrid(rows, cols, start)
    ensures Outcome(rows, cols, walls, start, finish, order, previous)
    ensures Distances(start, g, previous)
    ensures forall x :: x in g ==> x in f && f[x] == g[x] + Heuristic(x, finish)
  {
    order, previous := [], map[];
    g := map[start := 0];
    f := map[start := Heuristic(start, finish)];
    var visited: set<Pos> := {};
    var open := [start];
    while |open| > 0
      invariant AStarState(rows, cols, walls, start, finish, open, g, f, previous, order)
      invariant finish !in order && (forall x :: x in visited <==> x in order) && visited <= Cells(rows, cols)
      decreases |Cells(rows, cols) - visited|, |open|
    {
      var found;
      visited, open, order, previous, g, f, found := AStarRound(rows, cols, walls, start, finish, visited, open, g, f, previous, order);
      if found {
        return;
      }
    }
  }

  /** One turn of the A* loop. */
  method AStarRound(rows: nat, cols: nat, walls: set<Pos>, start: Pos, finish: Pos, visited: set<Pos>, open: seq<Pos>,
                    g: map<Pos, nat>, f: map<Pos, nat>, previous: map<Pos, Pos>, order: seq<Pos>)
    returns (visited': set<Pos>, open': seq<Pos>, order': seq<Pos>, previous': map<Pos, Pos>, g': map<Pos, nat>,
             f': map<Pos, nat>, found: bool)
    requires |open| > 0 && AStarState(rows, cols, walls, start, finish, open, g, f, previous, order)
    requires finish !in order && (forall x :: x in visited <==> x in order) && visited <= Cells(rows, cols)
    ensures found ==> Outcome(rows, cols, walls, start, finish, order', previous') && Distances(start, g', previous')
    ensures found ==> forall x :: x in g' ==> x in f' && f'[x] == g'[x] + Heuristic(x, finish)
    ensures !found ==> AStarState(rows, cols, walls, start, finish, open', g', f', previous', order') && finish !in order'
    ensures !found ==> forall x :: x in visited' <==> x in order'
    ensures visited' <= Cells(rows, cols)
    ensures |Cells(rows, cols) - visited'| < |Cells(rows, cols) - visited|
      || (|Cells(rows, cols) - visited'| == |Cells(rows, cols) - visited| && |open'| < |open|)
  {
    var sorted := SortByScore(f, open);
    SortedCells(f, open);
    AStarTaken(rows, cols, walls, start, finish, open, sorted, g, f, previous, order);
    if sorted[0] in walls {
      visited', open', order', previous', g', f', found := visited, sorted[1..], order, previous, g, f, false;
      return;
    }
    visited', open', order', previous', g', f', found := AStarVisit(rows, cols, walls, start, finish, visited, sorted, g, f, previous, order);
  }

  /** Visiting the first sorted open cell, which is not a wall: stop if it
      is finish, else relax its neighbours. */
  method AStarVisit(rows: nat, cols: nat, walls: set<Pos>, start: Pos, finish: Pos, visited: set<Pos>, sorted: seq<Pos>,
                    g: map<Pos, nat>, f: map<Pos, nat>, previous: map<Pos, Pos>, order: seq<Pos>)
    returns (visited': set<Pos>, open': seq<Pos>, order': seq<Pos>, previous': map<Pos, Pos>, g': map<Pos, nat>,
             f': map<Pos, nat>, found: bool)
    requires |sorted| > 0 && sorted[0] !in walls && ScoredTree(rows, cols, walls, start, finish, g, f, previous, order)
    requires sorted[0] !in order && InGrid(rows, cols, sorted[0]) && sorted[0] in g && sorted[0] !in sorted[1..]
    requires Distinct(sorted[1..]) && forall x :: x in sorted[1..] ==> InGrid(rows, cols, x) && x !in order && x in g
    requires forall x :: x in g ==> x in sorted[1..] || x == sorted[0] || x in order || x in walls
    requires finish !in order && (forall x :: x in visited <==> x in order) && visited <= Cells(rows, cols)
    ensures found ==> Outcome(rows, cols, walls, start, finish, order', previous') && Distances(start, g', previous')
    ensures found ==> forall x :: x in g' ==> x in f' && f'[x] == g'[x] + Heuristic(x, finish)
    ensures !found ==> AStarState(rows, cols, walls, start, finish, open', g', f', previous', order') && finish !in order'
    ensures !found ==> forall x :: x in visited' <==> x in order'
    ensures visited' <= Cells(rows, cols) && |Cells(rows, cols) - visited'| < |Cells(rows, cols) - visited|
  {
    var current := sorted[0];
    TreeVisit(rows, cols, walls, start, order, previous, current);
    visited', open', order', previous', g', f', found := visited + {current}, sorted[1..], order + [current], previous, g, f, false;
    CellsHold(rows, cols, current);
    Fewer(Cells(rows, cols), visited, visited', current);
    if current == finish {
      found := true;
      return;
    }
    assert order'[..|order'| - 1] == order;
    open', g', f', previous' := AStarExpand(rows, cols, walls, start, finish, visited', sorted[1..], g, f, previous, order');
  }

  /** The second half of an A* turn: relax the unvisited neighbours of
      the cell just visited, the last of order. */
  method AStarExpand(rows: nat, cols: nat, walls: set<Pos>, start: Pos, finish: Pos, visited: set<Pos>, open: seq<Pos>,
                     g: map<Pos, nat>, f: map<Pos, nat>, previous: map<Pos, Pos>, order: seq<Pos>)
    returns (open': seq<Pos>, g': map<Pos, nat>, f': map<Pos, nat>, previous': map<Pos, Pos>)
    requires |order| > 0 && InGrid(rows, cols, order[|order| - 1])
    requires SearchTree(rows, cols, walls, start, order, previous) && forall x :: x in visited <==> x in order
    requires Distinct(open) && forall x :: x in open ==> InGrid(rows, cols, x) && x !in order && x in g
    requires forall x :: x in g ==> x in open || x in order || x in walls
    requires forall x :: x in g ==> x in f && f[x] == g[x] + Heuristic(x, finish)
    requires Distances(start, g, previous) && forall x :: x in order ==> x in g
    requires forall p, n :: p in order[..|order| - 1] && InGrid(rows, cols, n) && Adjacent(p, n) ==> n in g
    ensures AStarState(rows, cols, walls, start, finish, open', g', f', previous', order)
  {
    var current := order[|order| - 1];
    var ns := Neighbours(rows, cols, current, visited);
    NeighboursExactly(rows, cols, current, visited);
    open', g', f', previous' := Relax(current, finish, ns, open, g, f, previous);
    FreshDistinct(ns, open, g, current);
    AStarRelaxed(rows, cols, walls, start, finish, visited, open, g, g', f', previous, previous', order, ns);
  }

  /** Taking the first sorted open cell: the rest lists the other open
      cells once each. */
  lemma AStarTaken(rows: nat, cols: nat, walls: set<Pos>, start: Pos, finish: Pos, open: seq<Pos>, sorted: seq<Pos>,
                   g: map<Pos, nat>, f: map<Pos, nat>, previous: map<Pos, Pos>, order: seq<Pos>)
    requires AStarState(rows, cols, walls, start, finish, open, g, f, previous, order)
    requires |sorted| > 0 && Distinct(sorted) && forall x :: x in sorted <==> x in open
    ensures sorted[0] !in order && InGrid(rows, cols, sorted[0]) && sorted[0] in g && sorted[0] !in sorted[1..]
    ensures Distinct(sorted[1..]) && forall x :: x in sorted[1..] ==> InGrid(rows, cols, x) && x !in order && x in g
    ensures forall x :: x in g ==> x in sorted[1..] || x == sorted[0] || x in order || x in walls
    ensures sorted[0] in walls ==> AStarState(rows, cols, walls, start, finish, sorted[1..], g, f, previous, order)
  {
    forall x | x in sorted
      ensures x in sorted[1..] || x == sorted[0]
    {
      var i :| 0 <= i < |sorted| && sorted[i] == x;
      if i > 0 {
        assert sorted[1..][i - 1] == x;
      }
    }
  }

  /** Relaxing the neighbours of the visited cell keeps the loop state. */
  lemma AStarRelaxed(rows: nat, cols: nat, walls: set<Pos>, start: Pos, finish: Pos, visited: set<Pos>, open: seq<Pos>,
                     g: map<Pos, nat>, g': map<Pos, nat>, f': map<Pos, nat>, previous: map<Pos, Pos>, previous': map<Pos, Pos>,
                     order: seq<Pos>, ns: seq<Pos>)
    requires |order| > 0 && SearchTree(rows, cols, walls, start, order, previous)
    requires forall x :: x in visited <==> x in order
    requires Distances(start, g, previous) && order[|order| - 1] in g
    requires Distinct(open + Fresh(ns, open, g, order[|order| - 1]))
    requires forall x :: x in open ==> InGrid(rows, cols, x) && x !in order && x in g
    requires forall x :: x in g ==> x in open || x in order || x in walls
    requires forall x :: x in order ==> x in g
    requires forall p, n :: p in order[..|order| - 1] && InGrid(rows, cols, n) && Adjacent(p, n) ==> n in g
    requires forall n :: n in ns <==> InGrid(rows, cols, n) && Adjacent(order[|order| - 1], n) && n !in visited
    requires forall x :: x in g' <==> x in g || x in ns
    requires forall x :: x in g' ==> g'[x] == if x in ns && Improves(g, order[|order| - 1], x) then g[order[|order| - 1]] + 1 else g[x]
    requires forall x :: x in g' ==> x in f' && f'[x] == g'[x] + Heuristic(x, finish)
    requires forall x :: x in previous' <==> x in previous || (x in ns && Improves(g, order[|order| - 1], x))
    requires forall x :: x in previous' ==> previous'[x] == if x in ns && Improves(g, order[|order| - 1], x) then order[|order| - 1] else previous[x]
    ensures AStarState(rows, cols, walls, start, finish, open + Fresh(ns, open, g, order[|order| - 1]), g', f', previous', order)
  {
    var c := order[|order| - 1];
    assert c !in ns;
    assert start in visited;
    TreeExtended(rows, cols, walls, start, visited, order, previous, previous', ns, c);
    AStarOpenKept(rows, cols, walls, order, open, Fresh(ns, open, g, c), ns, g, g', c);
    ScoresRelaxed(start, order, g, g', previous, previous', ns, c);
    forall p, n | p in order && InGrid(rows, cols, n) && Adjacent(p, n)
      ensures n in g'
    {
      InitOrLast(order, p);
    }
  }

  /** After relaxing, the open list still holds scored untaken cells, and
      every scored cell is open, visited or a wall. */
  lemma AStarOpenKept(rows: nat, cols: nat, walls: set<Pos>, order: seq<Pos>, open: seq<Pos>, added: seq<Pos>, ns: seq<Pos>,
                      g: map<Pos, nat>, g': map<Pos, nat>, c: Pos)
    requires c in g && forall x :: x in added <==> x in ns && Improves(g, c, x) && x !in open
    requires forall x :: x in open ==> InGrid(rows, cols, x) && x !in order && x in g
    requires forall x :: x in g ==> x in open || x in order || x in walls
    requires forall n :: n in ns ==> InGrid(rows, cols, n) && n !in order
    requires forall x :: x in g' <==> x in g || x in ns
    ensures forall x :: x in open + added ==> InGrid(rows, cols, x) && x !in order && x in g'
    ensures forall x :: x in g' ==> x in open + added || x in order || x in walls
  {
  }

  /** Relaxing through c keeps the scores agreeing with the links. */
  lemma ScoresRelaxed(start: Pos, order: seq<Pos>, g: map<Pos, nat>, g': map<Pos, nat>, previous: map<Pos, Pos>,
                      previous': map<Pos, Pos>, ns: seq<Pos>, c: Pos)
    requires Distances(start, g, previous) && c in g && c !in ns && start !in ns
    requires forall x :: x in previous ==> previous[x] !in ns
    requires forall x :: x in g' <==> x in g || x in ns
    requires forall x :: x in g' ==> g'[x] == if x in ns && Improves(g, c, x) then g[c] + 1 else g[x]
    requires forall x :: x in previous' <==> x in previous || (x in ns && Improves(g, c, x))
    requires forall x :: x in previous' ==> previous'[x] == if x in ns && Improves(g, c, x) then c else previous[x]
    ensures Distances(start, g', previous')
  {
  }

  // ---------------------------------------------------------------------
  // The board

  /** The algorithm menu; any other choice runs nothing. */
  datatype Algorithm = DijkstraAlg | AStarAlg | BfsAlg | DfsAlg | OtherAlg

  /** The page's grid: the cells that are walls. Start and finish are
      never walls. Each run starts from cleared search fields, so the
      fields a search writes are its own locals here. */
  class Board {
    var walls: set<Pos>

    ghost predicate Valid()
      reads this
    {
      START !in walls && FINISH !in walls && forall w :: w in walls ==> InGrid(ROWS, COLS, w)
    }

    /** `getInitialGrid`: no walls. */
    constructor ()
      ensures Valid() && walls == {}
    {
      walls := {};
    }

    /** `getNewGridWithWallToggled`: the cell flips between wall and free,
        except start and finish, which stay as they are. */
    method ToggleWall(row: nat, col: nat)
      requires Valid() && InGrid(ROWS, COLS, Pos(row, col))
      modifies this
      ensures Valid()
      ensures var p := Pos(row, col);
        walls == if p == START || p == FINISH then old(walls)
                 else if p in old(walls) then old(walls) - {p}
                 else old(walls) + {p}
    {
      var p := Pos(row, col);
      if p == START || p == FINISH {
        return;
      }
      if p in walls {
        walls := walls - {p};
      } else {
        walls := walls + {p};
      }
    }

    /** `generateMaze`: a fresh grid whose walls are the drawn cells other
        than start and finish; `drawn` stands for the cells where
        `Math.random()` came out below 0.3. */
    method GenerateMaze(drawn: set<Pos>)
      modifies this
      ensures Valid()
      ensures forall p :: p in walls <==> p in drawn && InGrid(ROWS, COLS, p) && p != START && p != FINISH
    {
      walls := set p | p in drawn && InGrid(ROWS, COLS, p) && p != START && p != FINISH;
    }

    /** `clearGrid`: back to a grid without walls. */
    method ClearGrid()
      modifies this
      ensures Valid() && walls == {}
    {
      walls := {};
    }

    /** `visualizeAlgorithm`: run the chosen search from start to finish
        and read the path back from finish. The path has more than one
        cell exactly when a search ran and finish is reachable, and then it
        walks from start to finish around the walls; otherwise it is finish
        alone. The visited cells are distinct non-wall cells, start first. */
    method Visualize(algorithm: Algorithm) returns (order: seq<Pos>, path: seq<Pos>)
      requires Valid()
      ensures |path| > 1 <==> algorithm != OtherAlg && Reachable(ROWS, COLS, walls, START, FINISH)
      ensures |path| > 1 ==> path[0] == START && path[|path| - 1] == FINISH && IsWalk(ROWS, COLS, walls, path)
      ensures |path| <= 1 ==> path == [FINISH]
      ensures Distinct(order) && forall p :: p in order ==> InGrid(ROWS, COLS, p) && p !in walls
      ensures order != [] <==> algorithm != OtherAlg
      ensures order != [] ==> order[0] == START
    {
      var previous: map<Pos, Pos>;
      match algorithm {
        case DijkstraAlg =>
          var dist;
          order, previous, dist := Dijkstra(ROWS, COLS, walls, START, FINISH);
        case AStarAlg =>
          var g, f;
          order, previous, g, f := AStar(ROWS, COLS, walls, START, FINISH);
        case BfsAlg =>
          ghost var enqueued;
          order, previous, enqueued := Bfs(ROWS, COLS, walls, START, FINISH);
        case DfsAlg =>
          order, previous := Dfs(ROWS, COLS, walls, START, FINISH);
        case OtherAlg =>
          order, previous := [], map[];
      }
      path := ShortestPathOrder(order, previous, FINISH);
      if algorithm != OtherAlg {
        PathFromOutcome(ROWS, COLS, walls, START, FINISH, order, previous);
      } else {
        assert !(FINISH in previous);
      }
    }
  }

  /** A cell of s is its last or in the rest. */
  lemma InitOrLast(s: seq<Pos>, x: Pos)
    requires x in s
    ensures x in s[..|s| - 1] || x == s[|s| - 1]
  {
    var i :| 0 <= i < |s| && s[i] == x;
    if i < |s| - 1 {
      assert s[..|s| - 1][i] == x;
    }
  }

  /** Visiting a new non-wall cell that is start or linked, and is start
      when it is the first, extends the search tree. */
  lemma TreeVisit(rows: nat, cols: nat, walls: set<Pos>, start: Pos, order: seq<Pos>, previous: map<Pos, Pos>, c: Pos)
    requires SearchTree(rows, cols, walls, start, order, previous)
    requires InGrid(rows, cols, c) && c !in walls && c !in order && (c == start || c in previous)
    requires order == [] ==> previous == map[]
    ensures SearchTree(rows, cols, walls, start, order + [c], previous)
  {
    var o := order + [c];
    assert Tree(o, previous) by {
      forall k | 0 <= k < |o| && o[k] in previous
        ensures previous[o[k]] in o[..k]
      {
        if k < |order| {
          assert o[..k] == order[..k];
        } else {
          assert o[..k] == order;
        }
      }
    }
  }

  /** Linking some of the new neighbours to the visited cell c, and
      leaving every other link alone, keeps the tree. */
  lemma TreeExtended(rows: nat, cols: nat, walls: set<Pos>, start: Pos, visited: set<Pos>, o: seq<Pos>,
                     previous: map<Pos, Pos>, previous': map<Pos, Pos>, ns: seq<Pos>, c: Pos)
    requires SearchTree(rows, cols, walls, start, o, previous) && |o| > 0 && o[|o| - 1] == c
    requires start in visited && forall x :: x in o ==> x in visited
    requires forall n :: n in ns ==> InGrid(rows, cols, n) && Adjacent(c, n) && n !in visited
    requires forall x :: x in previous ==> x in previous'
    requires forall x :: x in previous' ==> (x in ns && previous'[x] == c) || (x in previous && previous'[x] == previous[x])
    ensures SearchTree(rows, cols, walls, start, o, previous')
  {
    forall p | p in previous'
      ensures previous'[p] in o && Adjacent(previous'[p], p) && InGrid(rows, cols, p)
    {
      if p in ns && previous'[p] == c {
        assert previous'[p] == o[|o| - 1];
      }
    }
    forall k | 0 <= k < |o| && o[k] in previous'
      ensures previous'[o[k]] in o[..k]
    {
      assert o[k] !in ns;
    }
  }
}
