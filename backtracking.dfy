/** The backtracking page: N-Queens on a size × size board of 0/1 cells.
    `backtrack(row)` tries each column of the row in turn, records a check
    step, and on a safe cell places a queen, recurses into the next row and,
    when that fails, removes the queen again. The first full placement ends
    the search.

    Queens are only ever placed one per row, top to bottom, so while the
    search runs the board is described by the columns chosen so far: a
    sequence `cols` whose i-th entry is the column of the queen in row i. */
module Backtracking {

  datatype Cell = Cell(row: int, col: int)

  datatype Operation = Place | Backtrack | Check | Solution | Init

  /** One recorded step: a copy of the board, the queens on it, the cell
      being tried, whether the step removes a queen, the conflicts found,
      the kind of step and the solutions found so far. */
  datatype BacktrackStep = BacktrackStep(board: seq<seq<int>>, queens: seq<Cell>, currentRow: int,
                                         currentCol: int, isBacktracking: bool, conflicts: seq<Cell>,
                                         operation: Operation, solutionCount: nat)

  // ---------------------------------------------------------------------
  // Queens, placements and solutions

  /** Two queens attack each other along a column or a diagonal. */
  predicate Attacks(i: int, j: int, r: int, c: int) {
    j == c || i - j == r - c || i + j == r + c
  }

  /** The queens in rows 0 .. |cols| - 1 are on the board and none attacks
      another. */
  predicate Partial(cols: seq<int>, n: nat) {
    (forall i :: 0 <= i < |cols| ==> 0 <= cols[i] < n)
    && (forall i, k :: 0 <= i < k < |cols| ==> !Attacks(i, cols[i], k, cols[k]))
  }

  /** A full placement: one queen in every row. */
  predicate IsSolution(cols: seq<int>, n: nat) {
    |cols| == n && Partial(cols, n)
  }

  ghost predicate HasSolution(n: nat) {
    exists s :: IsSolution(s, n)
  }

  /** No queen of `cols` attacks the cell (|cols|, c) of the next row. */
  predicate SafeAt(cols: seq<int>, c: int) {
    forall i :: 0 <= i < |cols| ==> !Attacks(i, cols[i], |cols|, c)
  }

  /** No solution starts with the placement `p`. */
  ghost predicate NoSolutionFrom(p: seq<int>, n: nat) {
    forall s :: IsSolution(s, n) && |p| <= |s| ==> s[..|p|] != p
  }

  /** `a` comes before `b` in the order the search tries placements. */
  ghost predicate LexLess(a: seq<int>, b: seq<int>) {
    exists k :: 0 <= k < |a| && k < |b| && a[..k] == b[..k] && a[k] < b[k]
  }

  /** For every row from `row` on, every column left of the chosen one
      leads to no solution: the search found `sol` before any other. */
  ghost predicate FirstFrom(sol: seq<int>, row: nat, n: nat) {
    forall k, c :: row <= k < |sol| && 0 <= c < sol[k] ==> NoSolutionFrom(sol[..k] + [c], n)
  }

  /** The cell value of the board holding the queens of `cols`. */
  function Mark(cols: seq<int>, i: int, j: int): int {
    if 0 <= i < |cols| && j == cols[i] then 1 else 0
  }

  /** The n × n board holding the queens of `cols`. */
  function BoardOf(cols: seq<int>, n: nat): seq<seq<int>> {
    seq(n, i => seq(n, j => Mark(cols, i, j)))
  }

  function Placement(cols: seq<int>): seq<Cell> {
    seq(|cols|, i requires 0 <= i < |cols| => Cell(i, cols[i]))
  }

  /** A solved board: n rows of n cells, exactly one queen in each row, and
      no two queens in different rows attacking each other. */
  ghost predicate SolvedBoard(b: seq<seq<int>>, n: nat) {
    |b| == n && (forall i :: 0 <= i < n ==> |b[i]| == n)
    && (forall i :: 0 <= i < n ==> 1 in b[i])
    && (forall i, j, l :: 0 <= i < n && 0 <= j < n && 0 <= l < n && b[i][j] == 1 && b[i][l] == 1 ==> j == l)
    && (forall i, j, k, l :: 0 <= i < k < n && 0 <= j < n && 0 <= l < n && b[i][j] == 1 && b[k][l] == 1
          ==> !Attacks(i, j, k, l))
  }

  /** Adding a queen on a safe cell of the next row keeps a placement. */
  lemma ExtendPartial(cols: seq<int>, c: int, n: nat)
    requires Partial(cols, n) && 0 <= c < n && SafeAt(cols, c)
    ensures Partial(cols + [c], n)
  {
    var p := cols + [c];
    forall i, k | 0 <= i < k < |p|
      ensures !Attacks(i, p[i], k, p[k])
    {
      if k == |cols| {
        assert p[i] == cols[i] && p[k] == c;
      } else {
        assert p[i] == cols[i] && p[k] == cols[k];
      }
    }
  }

  lemma PrefixPartial(s: seq<int>, k: nat, n: nat)
    requires Partial(s, n) && k <= |s|
    ensures Partial(s[..k], n)
  {
    var p := s[..k];
    assert forall i :: 0 <= i < |p| ==> p[i] == s[i];
  }

  /** A cell attacked from above leads to no solution. */
  lemma UnsafeDead(cols: seq<int>, c: int, n: nat)
    requires !SafeAt(cols, c)
    ensures NoSolutionFrom(cols + [c], n)
  {
    var i :| 0 <= i < |cols| && Attacks(i, cols[i], |cols|, c);
    var p := cols + [c];
    forall s | IsSolution(s, n) && |p| <= |s|
      ensures s[..|p|] != p
    {
      // the solution keeps its queens in rows i and |cols| apart, the
      // placement does not, so the two differ in one of those rows
      assert !Attacks(i, s[i], |cols|, s[|cols|]);
      if s[i] != cols[i] {
        assert s[..|p|][i] != p[i];
      } else {
        assert s[..|p|][|cols|] != p[|cols|];
      }
    }
  }

  /** The columns left of `col` in the next row lead to no solution. */
  ghost predicate Rejected(cols: seq<int>, col: int, n: nat) {
    forall c :: 0 <= c < col ==> NoSolutionFrom(cols + [c], n)
  }

  lemma RejectedNext(cols: seq<int>, col: int, n: nat)
    requires Rejected(cols, col, n) && NoSolutionFrom(cols + [col], n)
    ensures Rejected(cols, col + 1, n)
  {
  }

  /** When no column of the next row leads to a solution, neither does
      the placement so far. */
  lemma NoneLeft(cols: seq<int>, n: nat)
    requires |cols| < n
    requires Rejected(cols, n, n)
    ensures NoSolutionFrom(cols, n)
  {
    forall s | IsSolution(s, n) && |cols| <= |s|
      ensures s[..|cols|] != cols
    {
      var c := s[|cols|];
      assert s[..|cols| + 1] == s[..|cols|] + [c];
      assert NoSolutionFrom(cols + [c], n);
    }
  }

  /** The empty placement starts every solution, so no solution from it
      means none at all. */
  lemma NoSolutionAtAll(n: nat)
    requires NoSolutionFrom([], n)
    ensures !HasSolution(n)
  {
    assert forall s: seq<int> :: s[..0] == [];
  }

  /** The columns the search rejected at row `row` before choosing `col`
      join the rejections the recursive call made below it. */
  lemma FirstExtend(cols: seq<int>, col: int, sol: seq<int>, n: nat)
    requires Rejected(cols, col, n)
    requires |cols| < |sol| && sol[..|cols| + 1] == cols + [col]
    requires FirstFrom(sol, |cols| + 1, n)
    ensures FirstFrom(sol, |cols|, n)
  {
    forall k, c | |cols| <= k < |sol| && 0 <= c < sol[k]
      ensures NoSolutionFrom(sol[..k] + [c], n)
    {
      if k == |cols| {
        assert sol[..k] == cols && sol[k] == col;
      }
    }
  }

  /** The solution the search finds comes first: every other solution is
      later in the order in which the search tries placements. */
  lemma FirstSolution(sol: seq<int>, n: nat)
    requires IsSolution(sol, n) && FirstFrom(sol, 0, n)
    ensures forall s :: IsSolution(s, n) && s != sol ==> LexLess(sol, s)
  {
    forall s | IsSolution(s, n) && s != sol
      ensures LexLess(sol, s)
    {
      var k := FirstDifference(sol, s);
      NotBefore(sol, s, k, n);
    }
  }

  /** A solution agreeing with the first one on rows 0 .. k - 1 puts its
      queen of row k no further left. */
  lemma NotBefore(sol: seq<int>, s: seq<int>, k: nat, n: nat)
    requires IsSolution(sol, n) && FirstFrom(sol, 0, n) && IsSolution(s, n)
    requires k < n && s[..k] == sol[..k]
    ensures sol[k] <= s[k]
  {
    // otherwise the search would have rejected s[..k + 1]
    assert s[..k + 1] == sol[..k] + [s[k]];
  }

  /** The first row where two sequences of the same length differ. */
  lemma FirstDifference(a: seq<int>, b: seq<int>) returns (k: nat)
    requires |a| == |b| && a != b
    ensures k < |a| && a[..k] == b[..k] && a[k] != b[k]
  {
    k := 0;
    while k < |a| && a[k] == b[k]
      invariant k <= |a| && a[..k] == b[..k]
    {
      assert a[..k + 1] == b[..k + 1];
      k := k + 1;
    }
    assert a == a[..|a|] && b == b[..|b|];
  }

  /** The board of a solution is solved. */
  lemma SolutionBoard(sol: seq<int>, n: nat)
    requires IsSolution(sol, n)
    ensures SolvedBoard(BoardOf(sol, n), n)
  {
    var b := BoardOf(sol, n);
    assert forall i, j :: 0 <= i < n && 0 <= j < n ==> (b[i][j] == 1 <==> j == sol[i]);
    forall i | 0 <= i < n
      ensures 1 in b[i]
    {
      assert b[i][sol[i]] == 1;
    }
    forall i, j, k, l | 0 <= i < k < n && 0 <= j < n && 0 <= l < n && b[i][j] == 1 && b[k][l] == 1
      ensures !Attacks(i, j, k, l)
    {
      assert j == sol[i] && l == sol[k];
    }
  }

  // ---------------------------------------------------------------------
  // getQueens as a function of the board's rows

  /** The cells of row i holding a queen, left to right. */
  function RowQueens(i: int, r: seq<int>): seq<Cell> {
    if r == [] then []
    else RowQueens(i, r[..|r| - 1]) + (if r[|r| - 1] == 1 then [Cell(i, |r| - 1)] else [])
  }

  /** The cells holding a queen, row by row. */
  function Queens(b: seq<seq<int>>): seq<Cell> {
    if b == [] then []
    else Queens(b[..|b| - 1]) + RowQueens(|b| - 1, b[|b| - 1])
  }

  lemma {:induction false} RowQueensMembers(i: int, r: seq<int>)
    ensures forall c :: c in RowQueens(i, r) <==> c.row == i && 0 <= c.col < |r| && r[c.col] == 1
  {
    if r != [] {
      var p := r[..|r| - 1];
      RowQueensMembers(i, p);
      assert forall j :: 0 <= j < |p| ==> p[j] == r[j];
    }
  }

  /** getQueens lists exactly the cells holding 1. */
  lemma {:induction false} QueensMembers(b: seq<seq<int>>)
    ensures forall c :: c in Queens(b) <==>
      0 <= c.row < |b| && 0 <= c.col < |b[c.row]| && b[c.row][c.col] == 1
  {
    if b != [] {
      var p := b[..|b| - 1];
      QueensMembers(p);
      RowQueensMembers(|b| - 1, b[|b| - 1]);
      assert forall k :: 0 <= k < |p| ==> p[k] == b[k];
    }
  }

  /** A row with its only queen at column c lists that one cell when c is
      among its first m cells, and nothing otherwise. */
  lemma {:induction false} RowQueensOne(i: int, r: seq<int>, c: int, m: nat)
    requires m <= |r| && forall j :: 0 <= j < |r| ==> (r[j] == 1 <==> j == c)
    ensures RowQueens(i, r[..m]) == if 0 <= c < m then [Cell(i, c)] else []
  {
    if m > 0 {
      RowQueensOne(i, r, c, m - 1);
      assert r[..m][..m - 1] == r[..m - 1];
    }
  }

  lemma {:induction false} RowQueensNone(i: int, r: seq<int>, m: nat)
    requires m <= |r| && forall j :: 0 <= j < |r| ==> r[j] != 1
    ensures RowQueens(i, r[..m]) == []
  {
    if m > 0 {
      RowQueensNone(i, r, m - 1);
      assert r[..m][..m - 1] == r[..m - 1];
    }
  }

  /** Row i of a placement's board lists the placement's queen of row i,
      if it has one. */
  lemma BoardRowQueens(cols: seq<int>, n: nat, i: nat)
    requires Partial(cols, n) && |cols| <= n && i < n
    ensures RowQueens(i, BoardOf(cols, n)[i]) == if i < |cols| then [Cell(i, cols[i])] else []
  {
    var r := BoardOf(cols, n)[i];
    assert r[..n] == r;
    if i < |cols| {
      RowQueensOne(i, r, cols[i], n);
    } else {
      RowQueensNone(i, r, n);
    }
  }

  lemma PlacementSnoc(cols: seq<int>, k: nat)
    requires k < |cols|
    ensures Placement(cols[..k + 1]) == Placement(cols[..k]) + [Cell(k, cols[k])]
  {
  }

  /** The queens of a placement's board are its cells, row by row. */
  lemma {:induction false} QueensOfBoard(cols: seq<int>, n: nat, k: nat)
    requires Partial(cols, n) && |cols| <= n && k <= n
    ensures Queens(BoardOf(cols, n)[..k]) == Placement(cols[..if k < |cols| then k else |cols|])
  {
    var b := BoardOf(cols, n);
    if k > 0 {
      QueensOfBoard(cols, n, k - 1);
      assert b[..k][..k - 1] == b[..k - 1];
      assert b[..k][k - 1] == b[k - 1];
      BoardRowQueens(cols, n, k - 1);
      if k - 1 < |cols| {
        PlacementSnoc(cols, k - 1);
      }
    } else {
      assert Placement(cols[..0]) == [];
    }
  }

  // ---------------------------------------------------------------------
  // The recorded steps

  /** The number of steps of the given kind, as the page's statistics
      count them. */
  function Count(steps: seq<BacktrackStep>, op: Operation): (r: nat)
    ensures r <= |steps|
  {
    if steps == [] then 0
    else Count(steps[..|steps| - 1], op) + (if steps[|steps| - 1].operation == op then 1 else 0)
  }

  lemma CountSnoc(steps: seq<BacktrackStep>, x: BacktrackStep, op: Operation)
    ensures Count(steps + [x], op) == Count(steps, op) + (if x.operation == op then 1 else 0)
  {
    assert (steps + [x])[..|steps|] == steps;
  }

  /** From the steps and counters (steps0, backtracks0, solutions0) to
      (steps1, backtracks1, solutions1): steps were only appended, each
      backtrack step came with one increment of the backtrack counter, and
      a solution step together with one increment of the solution counter
      exactly when `solved`. */
  ghost predicate Progressed(steps0: seq<BacktrackStep>, backtracks0: int, solutions0: int,
                             steps1: seq<BacktrackStep>, backtracks1: int, solutions1: int, solved: bool)
  {
    steps0 <= steps1
    && Count(steps1, Backtrack) - backtracks1 == Count(steps0, Backtrack) - backtracks0
    && Count(steps1, Solution) == Count(steps0, Solution) + (if solved then 1 else 0)
    && solutions1 == solutions0 + (if solved then 1 else 0)
  }

  lemma ProgressedThen(steps0: seq<BacktrackStep>, backtracks0: int, solutions0: int,
                       steps1: seq<BacktrackStep>, backtracks1: int, solutions1: int,
                       steps2: seq<BacktrackStep>, backtracks2: int, solutions2: int, solved: bool)
    requires Progressed(steps0, backtracks0, solutions0, steps1, backtracks1, solutions1, false)
    requires Progressed(steps1, backtracks1, solutions1, steps2, backtracks2, solutions2, solved)
    ensures Progressed(steps0, backtracks0, solutions0, steps2, backtracks2, solutions2, solved)
  {
    assert steps2[..|steps0|] == steps1[..|steps0|];
  }

  /** The opening step, and the closing step when no solution exists. */
  function InitStep(n: nat): (r: BacktrackStep)
    ensures r.operation == Init && r.queens == [] && r.solutionCount == 0
    ensures |r.board| == n && forall i :: 0 <= i < n ==> |r.board[i]| == n
    ensures forall i, j :: 0 <= i < n && 0 <= j < n ==> r.board[i][j] == 0
  {
    BacktrackStep(BoardOf([], n), [], 0, 0, false, [], Init, 0)
  }

  /** The step recorded when every row holds a queen. */
  function SolutionStep(sol: seq<int>, count: nat): BacktrackStep {
    BacktrackStep(BoardOf(sol, |sol|), Placement(sol), |sol|, 0, false, [], Solution, count)
  }

  // ---------------------------------------------------------------------
  // solveNQueens

  /** The state of one run of solveNQueens: the board it changes in place,
      the steps it records and its two counters. */
  class QueensSolver {
    const size: nat
    const board: array2<int>
    var steps: seq<BacktrackStep>
    var solutionCount: nat
    var backtrackCount: nat

    /** The board is size × size and holds exactly the queens of `cols`. */
    ghost predicate BoardIs(cols: seq<int>)
      reads board
    {
      board.Length0 == size && board.Length1 == size
      && forall i, j :: 0 <= i < size && 0 <= j < size ==> board[i, j] == Mark(cols, i, j)
    }

    /** A copy of the board, row by row. */
    function Rows(): (r: seq<seq<int>>)
      reads board
      ensures |r| == board.Length0
      ensures forall i :: 0 <= i < |r| ==> |r[i]| == board.Length1
      ensures forall i, j :: 0 <= i < board.Length0 && 0 <= j < board.Length1 ==> r[i][j] == board[i, j]
    {
      seq(board.Length0, i requires 0 <= i < board.Length0 reads board =>
        seq(board.Length1, j requires 0 <= j < board.Length1 reads board => board[i, j]))
    }

    lemma RowsAre(cols: seq<int>)
      requires BoardIs(cols)
      ensures Rows() == BoardOf(cols, size)
    {
      var r, b := Rows(), BoardOf(cols, size);
      forall i | 0 <= i < size
        ensures r[i] == b[i]
      {
        assert forall j :: 0 <= j < size ==> r[i][j] == board[i, j];
      }
    }

    constructor (size: nat)
      ensures this.size == size && BoardIs([])
      ensures steps == [InitStep(size)] && solutionCount == 0 && backtrackCount == 0
      ensures fresh(board)
    {
      this.size := size;
      board := new int[size, size]((i, j) => 0);
      solutionCount := 0;
      backtrackCount := 0;
      new;
      RowsAre([]);
      steps := [BacktrackStep(Rows(), [], 0, 0, false, [], Init, 0)];
    }

    /** Records a step with a copy of the board and the current solution
        count. */
    method AddStep(op: Operation, queens: seq<Cell>, row: int, col: int, backtracking: bool, conflicts: seq<Cell>)
      modifies this`steps
      ensures steps == old(steps) + [BacktrackStep(Rows(), queens, row, col, backtracking, conflicts, op, solutionCount)]
      ensures Count(steps, Backtrack) == old(Count(steps, Backtrack)) + (if op == Backtrack then 1 else 0)
      ensures Count(steps, Solution) == old(Count(steps, Solution)) + (if op == Solution then 1 else 0)
    {
      var step := BacktrackStep(Rows(), queens, row, col, backtracking, conflicts, op, solutionCount);
      CountSnoc(steps, step, Backtrack);
      CountSnoc(steps, step, Solution);
      steps := steps + [step];
    }

    /** `conflicts` holds exactly the queens in rows above `row` that
        attack (row, col). */
    ghost predicate ConflictsOf(conflicts: seq<Cell>, row: int, col: int)
      requires board.Length0 == size && board.Length1 == size && row <= size
      reads board
    {
      forall c :: c in conflicts <==>
        0 <= c.row < row && 0 <= c.col < size && board[c.row, c.col] == 1 && Attacks(c.row, c.col, row, col)
    }

    /** No queen in a row above `row` attacks (row, col). */
    ghost predicate Unattacked(row: int, col: int)
      requires board.Length0 == size && board.Length1 == size && row <= size
      reads board
    {
      forall i, j :: 0 <= i < row && 0 <= j < size && board[i, j] == 1 ==> !Attacks(i, j, row, col)
    }

    /** isSafe: the queens above (row, col) that attack it, and whether
        there are none. It scans the column and the two upward diagonals. */
    method IsSafe(row: nat, col: nat) returns (safe: bool, conflicts: seq<Cell>)
      requires board.Length0 == size && board.Length1 == size && row < size && col < size
      ensures ConflictsOf(conflicts, row, col)
      ensures safe <==> conflicts == []
      ensures safe <==> Unattacked(row, col)
    {
      conflicts := [];
      for i := 0 to row
        invariant forall c :: c in conflicts <==> 0 <= c.row < i && c.col == col && board[c.row, col] == 1
      {
        if board[i, col] == 1 {
          conflicts := conflicts + [Cell(i, col)];
        }
      }
      var i, j := row - 1, col - 1;
      while i >= 0 && j >= 0
        invariant -1 <= i < row && i - j == row - col
        invariant forall c :: c in conflicts <==>
          (0 <= c.row < row && c.col == col && board[c.row, col] == 1)
          || (i < c.row < row && 0 <= c.col && c.row - c.col == row - col && board[c.row, c.col] == 1)
      {
        if board[i, j] == 1 {
          conflicts := conflicts + [Cell(i, j)];
        }
        i, j := i - 1, j - 1;
      }
      ghost var diagonal := conflicts;
      i, j := row - 1, col + 1;
      while i >= 0 && j < size
        invariant -1 <= i < row && i + j == row + col
        invariant forall c :: c in conflicts <==>
          (c in diagonal || (i < c.row < row && c.col < size && c.row + c.col == row + col && board[c.row, c.col] == 1))
      {
        if board[i, j] == 1 {
          conflicts := conflicts + [Cell(i, j)];
        }
        i, j := i - 1, j + 1;
      }
      forall i, j | 0 <= i < row && 0 <= j < size && board[i, j] == 1 && Attacks(i, j, row, col)
        ensures Cell(i, j) in conflicts
      {
        assert Cell(i, j).row == i && Cell(i, j).col == j;
      }
      safe := |conflicts| == 0;
      if !safe {
        assert conflicts[0] in conflicts;
      }
    }

    /** getQueens: the cells holding a queen, scanned row by row. */
    method GetQueens() returns (queens: seq<Cell>)
      requires board.Length0 == size && board.Length1 == size
      ensures queens == Queens(Rows())
    {
      ghost var rows := Rows();
      queens := [];
      for i := 0 to size
        invariant queens == Queens(rows[..i])
      {
        for j := 0 to size
          invariant queens == Queens(rows[..i]) + RowQueens(i, rows[i][..j])
        {
          assert rows[i][..j + 1][..j] == rows[i][..j];
          if board[i, j] == 1 {
            queens := queens + [Cell(i, j)];
          }
        }
        assert rows[..i + 1][..i] == rows[..i];
        assert rows[i][..size] == rows[i];
      }
      assert rows[..size] == rows;
    }

    /** On the board of a placement, the scan isSafe makes finds nothing
        exactly when the next row's cell is attacked by no queen. */
    lemma SafeMeans(cols: seq<int>, col: int)
      requires BoardIs(cols) && Partial(cols, size) && |cols| < size
      ensures Unattacked(|cols|, col) <==> SafeAt(cols, col)
    {
      assert forall i :: 0 <= i < |cols| ==> board[i, cols[i]] == 1;
    }

    /** The search ended with `sol`, tried no earlier column from row
        `row` on, and left its board and its step as the last one. */
    ghost predicate Found(sol: seq<int>, row: nat)
      reads this, board
    {
      IsSolution(sol, size) && FirstFrom(sol, row, size) && BoardIs(sol)
      && |steps| > 0 && steps[|steps| - 1] == SolutionStep(sol, solutionCount)
    }

    /** backtrack(row): tries the columns of `row` from left to right with
        the queens of `cols` above it, and reports whether a full placement
        was reached. On success the board keeps that placement and its
        step is the last one; on failure the board is as it was and no
        solution starts with `cols`. */
    method BacktrackRow(row: nat, ghost cols: seq<int>) returns (solved: bool, ghost sol: seq<int>)
      requires BoardIs(cols) && Partial(cols, size) && |cols| == row <= size
      modifies this, board
      decreases size - row, 2
      ensures Progressed(old(steps), old(backtrackCount), old(solutionCount), steps, backtrackCount, solutionCount, solved)
      ensures solved ==> Found(sol, row) && sol[..row] == cols
      ensures !solved ==> BoardIs(cols) && NoSolutionFrom(cols, size)
    {
      if row == size {
        RecordSolution(cols);
        assert cols[..row] == cols;
        return true, cols;
      }
      var col := 0;
      while col < size
        invariant col <= size && BoardIs(cols)
        invariant Progressed(old(steps), old(backtrackCount), old(solutionCount), steps, backtrackCount, solutionCount, false)
        invariant Rejected(cols, col, size)
      {
        ghost var steps1, backtracks1, solutions1 := steps, backtrackCount, solutionCount;
        var found;
        found, sol := TryColumn(row, col, cols);
        ProgressedThen(old(steps), old(backtrackCount), old(solutionCount), steps1, backtracks1, solutions1,
                       steps, backtrackCount, solutionCount, found);
        if found {
          FirstExtend(cols, col, sol, size);
          assert sol[..row] == sol[..row + 1][..row];
          return true, sol;
        }
        RejectedNext(cols, col, size);
        col := col + 1;
      }
      NoneLeft(cols, size);
      return false, [];
    }

    /** The base case: every row holds a queen, so a solution step is
        recorded with the board and its queens. */
    method RecordSolution(ghost cols: seq<int>)
      requires BoardIs(cols) && Partial(cols, size) && |cols| == size
      modifies this`steps, this`solutionCount
      ensures Progressed(old(steps), backtrackCount, old(solutionCount), steps, backtrackCount, solutionCount, true)
      ensures Found(cols, size)
    {
      solutionCount := solutionCount + 1;
      var queens := GetQueens();
      ShownBoard(cols);
      AddStep(Solution, queens, size, 0, false, []);
    }

    /** One turn of the column loop: check (row, col), and when it is
        safe, descend from it. */
    method TryColumn(row: nat, col: nat, ghost cols: seq<int>) returns (solved: bool, ghost sol: seq<int>)
      requires BoardIs(cols) && Partial(cols, size) && |cols| == row < size && col < size
      modifies this, board
      decreases size - row, 1
      ensures Progressed(old(steps), old(backtrackCount), old(solutionCount), steps, backtrackCount, solutionCount, solved)
      ensures solved ==> Found(sol, row + 1) && sol[..row + 1] == cols + [col]
      ensures !solved ==> BoardIs(cols) && NoSolutionFrom(cols + [col], size)
    {
      var safe, conflicts := CheckCell(row, col, cols);
      if !safe {
        UnsafeDead(cols, col, size);
        return false, [];
      }
      ghost var steps1, backtracks1, solutions1 := steps, backtrackCount, solutionCount;
      ExtendPartial(cols, col, size);
      solved, sol := Descend(row, col, cols);
      ProgressedThen(old(steps), old(backtrackCount), old(solutionCount), steps1, backtracks1, solutions1,
                     steps, backtrackCount, solutionCount, solved);
    }

    /** A safe cell: place a queen on it, search the rows below, and when
        that fails take the queen off again. */
    method Descend(row: nat, col: nat, ghost cols: seq<int>) returns (solved: bool, ghost sol: seq<int>)
      requires BoardIs(cols) && Partial(cols + [col], size) && |cols| == row < size && col < size
      modifies this, board
      decreases size - row, 0
      ensures Progressed(old(steps), old(backtrackCount), old(solutionCount), steps, backtrackCount, solutionCount, solved)
      ensures solved ==> Found(sol, row + 1) && sol[..row + 1] == cols + [col]
      ensures !solved ==> BoardIs(cols) && NoSolutionFrom(cols + [col], size)
    {
      PrefixPartial(cols + [col], row, size);
      assert (cols + [col])[..row] == cols;
      PlaceStep(row, col, cols);
      ghost var steps1, backtracks1, solutions1 := steps, backtrackCount, solutionCount;
      solved, sol := BacktrackRow(row + 1, cols + [col]);
      ProgressedThen(old(steps), old(backtrackCount), old(solutionCount), steps1, backtracks1, solutions1,
                     steps, backtrackCount, solutionCount, solved);
      if solved {
        return;
      }
      steps1, backtracks1, solutions1 := steps, backtrackCount, solutionCount;
      UndoStep(row, col, cols);
      ProgressedThen(old(steps), old(backtrackCount), old(solutionCount), steps1, backtracks1, solutions1,
                     steps, backtrackCount, solutionCount, false);
    }

    /** The check step: isSafe on (row, col), recorded with the conflicts
        it found, which are the queens of `cols` attacking the cell. */
    method CheckCell(row: nat, col: nat, ghost cols: seq<int>) returns (safe: bool, conflicts: seq<Cell>)
      requires BoardIs(cols) && Partial(cols, size) && |cols| == row < size && col < size
      modifies this`steps
      ensures safe <==> SafeAt(cols, col)
      ensures forall c :: c in conflicts <==> 0 <= c.row < row && c.col == cols[c.row] && Attacks(c.row, c.col, row, col)
      ensures steps == old(steps) + [BacktrackStep(BoardOf(cols, size), Placement(cols), row, col, false, conflicts, Check, solutionCount)]
      ensures Progressed(old(steps), backtrackCount, solutionCount, steps, backtrackCount, solutionCount, false)
    {
      safe, conflicts := IsSafe(row, col);
      SafeMeans(cols, col);
      ConflictsMean(cols, conflicts, col);
      var queens := GetQueens();
      ShownBoard(cols);
      AddStep(Check, queens, row, col, false, conflicts);
    }

    /** The place step: a queen on (row, col), then the board recorded. */
    method PlaceStep(row: nat, col: nat, ghost cols: seq<int>)
      requires BoardIs(cols) && Partial(cols + [col], size) && |cols| == row < size && col < size
      modifies this`steps, board
      ensures BoardIs(cols + [col])
      ensures steps == old(steps) + [BacktrackStep(BoardOf(cols + [col], size), Placement(cols + [col]), row, col, false, [], Place, solutionCount)]
      ensures Progressed(old(steps), backtrackCount, solutionCount, steps, backtrackCount, solutionCount, false)
    {
      PlaceQueen(row, col, cols);
      var queens := GetQueens();
      ShownBoard(cols + [col]);
      AddStep(Place, queens, row, col, false, []);
    }

    /** The backtrack step: the queen on (row, col) taken off again, the
        backtrack counter raised, and the board recorded. */
    method UndoStep(row: nat, col: nat, ghost cols: seq<int>)
      requires BoardIs(cols + [col]) && Partial(cols, size) && |cols| == row < size && 0 <= col < size
      modifies this`steps, this`backtrackCount, board
      ensures BoardIs(cols) && backtrackCount == old(backtrackCount) + 1
      ensures steps == old(steps) + [BacktrackStep(BoardOf(cols, size), Placement(cols), row, col, true, [], Backtrack, solutionCount)]
      ensures Progressed(old(steps), old(backtrackCount), solutionCount, steps, backtrackCount, solutionCount, false)
    {
      RemoveQueen(row, col, cols);
      backtrackCount := backtrackCount + 1;
      var queens := GetQueens();
      ShownBoard(cols);
      AddStep(Backtrack, queens, row, col, true, []);
    }

    /** The copy of a placement's board, and the queens read from it. */
    lemma ShownBoard(cols: seq<int>)
      requires BoardIs(cols) && Partial(cols, size) && |cols| <= size
      ensures Rows() == BoardOf(cols, size) && Queens(Rows()) == Placement(cols)
    {
      RowsAre(cols);
      QueensOfBoard(cols, size, size);
      assert BoardOf(cols, size)[..size] == BoardOf(cols, size);
      assert cols[..|cols|] == cols;
    }

    /** The conflicts isSafe finds on a placement's board are the queens of
        the placement that attack the cell. */
    lemma ConflictsMean(cols: seq<int>, conflicts: seq<Cell>, col: int)
      requires BoardIs(cols) && Partial(cols, size) && |cols| < size
      requires ConflictsOf(conflicts, |cols|, col)
      ensures forall c :: c in conflicts <==>
        0 <= c.row < |cols| && c.col == cols[c.row] && Attacks(c.row, c.col, |cols|, col)
    {
      assert forall i :: 0 <= i < |cols| ==> board[i, cols[i]] == 1;
    }

    /** Puts a queen on the next row. */
    method PlaceQueen(row: nat, col: int, ghost cols: seq<int>)
      requires BoardIs(cols) && |cols| == row < size && 0 <= col < size
      modifies board
      ensures BoardIs(cols + [col])
    {
      board[row, col] := 1;
    }

    /** Takes the queen of the last placed row off again. */
    method RemoveQueen(row: nat, col: int, ghost cols: seq<int>)
      requires BoardIs(cols + [col]) && |cols| == row < size && 0 <= col < size
      modifies board
      ensures BoardIs(cols)
    {
      board[row, col] := 0;
    }
  }

  // ---------------------------------------------------------------------

  /** solveNQueens: the steps of the search on a size × size board. The
      search stops at its first solution, so at most one solution step is
      recorded, and one is recorded exactly when the board has a solution;
      otherwise the steps end with a "no solution" step on the empty
      board. */
  method SolveNQueens(size: nat) returns (steps: seq<BacktrackStep>)
    ensures |steps| >= 2 && steps[0] == InitStep(size)
    ensures Count(steps, Solution) <= 1
    ensures Count(steps, Solution) == 1 <==> HasSolution(size)
    ensures HasSolution(size) ==> SolvedBoard(steps[|steps| - 1].board, size)
    ensures HasSolution(size) ==>
              exists sol :: (IsSolution(sol, size) && steps[|steps| - 1] == SolutionStep(sol, 1)
                             && forall s :: IsSolution(s, size) && s != sol ==> LexLess(sol, s))
    ensures !HasSolution(size) ==> steps[|steps| - 1] == InitStep(size)
  {
    var solver := new QueensSolver(size);
    assert Count(solver.steps, Solution) == 0 by {
      assert solver.steps[..0] == [];
    }
    var solved, sol := solver.BacktrackRow(0, []);
    if solver.solutionCount == 0 {
      NoSolutionAtAll(size);
      solver.RowsAre([]);
      solver.AddStep(Init, [], 0, 0, false, []);
    } else {
      SolutionBoard(sol, size);
      FirstSolution(sol, size);
    }
    steps := solver.steps;
  }

  datatype Stats = Stats(solutions: nat, backtracks: nat, totalSteps: nat)

  /** startSolving: solves the board and counts the solution steps, the
      backtracking steps and all steps. */
  method StartSolving(size: nat) returns (steps: seq<BacktrackStep>, stats: Stats)
    ensures stats == Stats(Count(steps, Solution), Count(steps, Backtrack), |steps|)
    ensures stats.solutions == if HasSolution(size) then 1 else 0
  {
    steps := SolveNQueens(size);
    stats := Stats(Count(steps, Solution), Count(steps, Backtrack), |steps|);
  }
}
