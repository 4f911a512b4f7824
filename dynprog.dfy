/** The dynamic-programming visualizer's step generators: Fibonacci, the
    longest common subsequence with its backtrack, edit distance and the
    0/1 knapsack. Each fills its table with nested loops and records one
    step per cell. */
module DynamicProgramming {
  import opened Common

  datatype Action = Compute | Backtrack | Solution

  /** A step record; its description and table snapshot are left out. */
  datatype DPStep = DPStep(step: nat, row: int, col: int, value: int, action: Action)

  type Table = seq<seq<int>>

  /** A table of rows+1 rows of cols+1 zeros. */
  function Zeros(rows: nat, cols: nat): (t: Table)
    ensures |t| == rows + 1 && forall r :: 0 <= r <= rows ==> |t[r]| == cols + 1
  {
    seq(rows + 1, _ => seq(cols + 1, _ => 0))
  }

  /** t[r][c] := v. */
  function Set(t: Table, r: int, c: int, v: int): (u: Table)
    requires 0 <= r < |t| && 0 <= c < |t[r]|
    ensures |u| == |t| && forall q :: 0 <= q < |t| ==> |u[q]| == |t[q]|
    ensures u[r][c] == v && forall q, d :: 0 <= q < |t| && 0 <= d < |t[q]| && (q, d) != (r, c) ==> u[q][d] == t[q][d]
  {
    t[r := t[r][c := v]]
  }

  // ---------------------------------------------------------------------
  // Fibonacci

  /** `generateFibonacciSteps`: the table holds F(0)..F(n) (for n = 0 the
      write to dp[1] extends it to two cells), one compute step per cell
      up to n and a final solution step showing F(n). */
  method FibonacciSteps(n: nat) returns (steps: seq<DPStep>, dp: seq<int>)
    ensures |dp| == (if n == 0 then 2 else n + 1) && forall i :: 0 <= i < |dp| ==> dp[i] == Fib(i)
    ensures |steps| == n + 2
    ensures forall k :: 0 <= k <= n ==> steps[k] == DPStep(k, 0, k, Fib(k), Compute)
    ensures steps[n + 1] == DPStep(n + 1, 0, n, Fib(n), Solution)
  {
    dp := seq(n + 1, _ => 0);
    dp := dp[0 := 0];
    dp := if |dp| > 1 then dp[1 := 1] else dp + [1];
    steps := [DPStep(0, 0, 0, 0, Compute)];
    if n > 0 {
      steps := steps + [DPStep(1, 0, 1, 1, Compute)];
    }
    var i := 2;
    while i <= n
      invariant 2 <= i <= |dp| == (if n == 0 then 2 else n + 1)
      invariant forall k :: 0 <= k < i ==> dp[k] == Fib(k)
      invariant |steps| == (if n == 0 then 1 else i)
      invariant forall k :: 0 <= k < |steps| ==> steps[k] == DPStep(k, 0, k, Fib(k), Compute)
    {
      dp := dp[i := dp[i - 1] + dp[i - 2]];
      steps := steps + [DPStep(i, 0, i, dp[i], Compute)];
      i := i + 1;
    }
    steps := steps + [DPStep(n + 1, 0, n, dp[n], Solution)];
  }

  function FibSum(n: nat): nat {
    if n == 0 then 0 else FibSum(n - 1) + Fib(n)
  }

  /** F(1) + ... + F(n) == F(n + 2) - 1. */
  lemma {:induction false} FibSumIdentity(n: nat)
    ensures FibSum(n) == Fib(n + 2) - 1
  {
    if n > 0 {
      FibSumIdentity(n - 1);
    }
  }

  // ---------------------------------------------------------------------
  // Longest common subsequence

  /** The LCS recurrence on prefixes. */
  function Lcs(a: string, b: string): nat
    decreases |a| + |b|
  {
    if |a| == 0 || |b| == 0 then 0
    else if a[|a| - 1] == b[|b| - 1] then Lcs(a[..|a| - 1], b[..|b| - 1]) + 1
    else
      var up := Lcs(a[..|a| - 1], b);
      var left := Lcs(a, b[..|b| - 1]);
      if up >= left then up else left
  }

  /** c is a subsequence of a. */
  predicate IsSubseq(c: string, a: string)
    decreases |a|
  {
    if c == [] then true
    else if a == [] then false
    else (c[|c| - 1] == a[|a| - 1] && IsSubseq(c[..|c| - 1], a[..|a| - 1])) || IsSubseq(c, a[..|a| - 1])
  }

  /** The string the backtrack reads off the table. */
  function LcsBacktrack(a: string, b: string): string
    decreases |a| + |b|
  {
    if |a| == 0 || |b| == 0 then []
    else if a[|a| - 1] == b[|b| - 1] then LcsBacktrack(a[..|a| - 1], b[..|b| - 1]) + [a[|a| - 1]]
    else if Lcs(a[..|a| - 1], b) > Lcs(a, b[..|b| - 1]) then LcsBacktrack(a[..|a| - 1], b)
    else LcsBacktrack(a, b[..|b| - 1])
  }

  /** Cells done so far: the zero row and column, rows before i, and row i
      before column j. */
  ghost predicate LcsFilled(dp: Table, s1: string, s2: string, i: int, j: int) {
    |dp| == |s1| + 1 && (forall r :: 0 <= r <= |s1| ==> |dp[r]| == |s2| + 1)
    && forall r, c :: 0 <= r <= |s1| && 0 <= c <= |s2| && (r == 0 || c == 0 || r < i || (r == i && c < j)) ==>
         dp[r][c] == Lcs(s1[..r], s2[..c])
  }

  /** Every step is numbered by its position and shows the LCS length of
      the prefixes of its cell. */
  ghost predicate LcsSteps(steps: seq<DPStep>, s1: string, s2: string) {
    forall k :: 0 <= k < |steps| ==>
      steps[k].step == k && 0 <= steps[k].row <= |s1| && 0 <= steps[k].col <= |s2|
      && steps[k].value == Lcs(s1[..steps[k].row], s2[..steps[k].col])
  }

  /** The recurrence at cell (i, j) read from the neighbouring prefixes. */
  lemma LcsCell(s1: string, s2: string, i: int, j: int)
    requires 1 <= i <= |s1| && 1 <= j <= |s2|
    ensures Lcs(s1[..i], s2[..j]) ==
      if s1[i - 1] == s2[j - 1] then Lcs(s1[..i - 1], s2[..j - 1]) + 1
      else Max(Lcs(s1[..i - 1], s2[..j]), Lcs(s1[..i], s2[..j - 1]))
  {
    assert s1[..i][..i - 1] == s1[..i - 1] && s2[..j][..j - 1] == s2[..j - 1];
  }

  /** `generateLCSSteps`: the table holds the LCS length of every pair of
      prefixes, the backtrack yields LcsBacktrack of the strings, and the
      last step shows the length for the whole strings. */
  method LcsStepsOf(s1: string, s2: string) returns (steps: seq<DPStep>, dp: Table, lcs: string)
    ensures LcsFilled(dp, s1, s2, |s1| + 1, 0)
    ensures lcs == LcsBacktrack(s1, s2)
    ensures |steps| > 0 && LcsSteps(steps, s1, s2)
    ensures steps[|steps| - 1] == DPStep(|steps| - 1, |s1|, |s2|, Lcs(s1, s2), Solution)
  {
    var m, n := |s1|, |s2|;
    dp := Zeros(m, n);
    steps := [];
    for i := 0 to m + 1
      invariant LcsSteps(steps, s1, s2)
    {
      steps := steps + [DPStep(|steps|, i, 0, 0, Compute)];
    }
    for j := 1 to n + 1
      invariant LcsSteps(steps, s1, s2)
    {
      steps := steps + [DPStep(|steps|, 0, j, 0, Compute)];
    }
    for i := 1 to m + 1
      invariant LcsFilled(dp, s1, s2, i, 0) && LcsSteps(steps, s1, s2)
    {
      dp, steps := LcsFillRow(s1, s2, i, dp, steps);
    }
    lcs, steps := LcsTrace(s1, s2, dp, steps);
    assert s1[..m] == s1 && s2[..n] == s2;
    steps := steps + [DPStep(|steps|, m, n, dp[m][n], Solution)];
  }

  /** One row of the fill loop. */
  method LcsFillRow(s1: string, s2: string, i: nat, dp0: Table, steps0: seq<DPStep>) returns (dp: Table, steps: seq<DPStep>)
    requires 1 <= i <= |s1| && LcsFilled(dp0, s1, s2, i, 0) && LcsSteps(steps0, s1, s2)
    ensures LcsFilled(dp, s1, s2, i + 1, 0) && LcsSteps(steps, s1, s2)
  {
    dp, steps := dp0, steps0;
    for j := 1 to |s2| + 1
      invariant LcsFilled(dp, s1, s2, i, j) && LcsSteps(steps, s1, s2)
    {
      LcsCell(s1, s2, i, j);
      var v;
      if s1[i - 1] == s2[j - 1] {
        v := dp[i - 1][j - 1] + 1;
      } else {
        v := Max(dp[i - 1][j], dp[i][j - 1]);
      }
      dp := Set(dp, i, j, v);
      steps := steps + [DPStep(|steps|, i, j, v, Compute)];
    }
  }

  /** The backtrack loop: from the bottom-right cell, take a matching
      character diagonally, else move up when the cell above is strictly
      larger, else left. */
  method LcsTrace(s1: string, s2: string, dp: Table, steps0: seq<DPStep>) returns (lcs: string, steps: seq<DPStep>)
    requires LcsFilled(dp, s1, s2, |s1| + 1, 0) && LcsSteps(steps0, s1, s2)
    ensures lcs == LcsBacktrack(s1, s2) && LcsSteps(steps, s1, s2)
  {
    var i, j := |s1|, |s2|;
    lcs := [];
    steps := steps0;
    assert s1[..i] == s1 && s2[..j] == s2;
    while i > 0 && j > 0
      invariant 0 <= i <= |s1| && 0 <= j <= |s2|
      invariant LcsBacktrack(s1[..i], s2[..j]) + lcs == LcsBacktrack(s1, s2)
      invariant LcsSteps(steps, s1, s2)
      decreases i + j
    {
      i, j, lcs, steps := LcsTraceStep(s1, s2, dp, i, j, lcs, steps);
    }
  }

  /** One move of the backtrack loop; the characters still to be read
      followed by those already read stay the whole backtracked string. */
  method LcsTraceStep(s1: string, s2: string, dp: Table, i: nat, j: nat, lcs0: string, steps0: seq<DPStep>)
    returns (i': nat, j': nat, lcs: string, steps: seq<DPStep>)
    requires 1 <= i <= |s1| && 1 <= j <= |s2| && LcsFilled(dp, s1, s2, |s1| + 1, 0) && LcsSteps(steps0, s1, s2)
    ensures i' + j' < i + j && i' <= i && j' <= j && LcsSteps(steps, s1, s2)
    ensures LcsBacktrack(s1[..i'], s2[..j']) + lcs == LcsBacktrack(s1[..i], s2[..j]) + lcs0
  {
    BacktrackCell(s1, s2, dp, i, j);
    lcs, steps := lcs0, steps0;
    if s1[i - 1] == s2[j - 1] {
      assert LcsBacktrack(s1[..i - 1], s2[..j - 1]) + ([s1[i - 1]] + lcs) == LcsBacktrack(s1[..i], s2[..j]) + lcs0;
      lcs := [s1[i - 1]] + lcs;
      LcsStepsAppend(steps, s1, s2, DPStep(|steps|, i, j, dp[i][j], Backtrack));
      steps := steps + [DPStep(|steps|, i, j, dp[i][j], Backtrack)];
      i', j' := i - 1, j - 1;
    } else if dp[i - 1][j] > dp[i][j - 1] {
      i', j' := i - 1, j;
    } else {
      i', j' := i, j - 1;
    }
  }

  lemma LcsStepsAppend(steps: seq<DPStep>, s1: string, s2: string, st: DPStep)
    requires LcsSteps(steps, s1, s2) && st.step == |steps|
    requires 0 <= st.row <= |s1| && 0 <= st.col <= |s2| && st.value == Lcs(s1[..st.row], s2[..st.col])
    ensures LcsSteps(steps + [st], s1, s2)
  {
  }

  /** The backtrack at cell (i, j), deciding by the table's cells. */
  lemma BacktrackCell(s1: string, s2: string, dp: Table, i: int, j: int)
    requires 1 <= i <= |s1| && 1 <= j <= |s2| && LcsFilled(dp, s1, s2, |s1| + 1, 0)
    ensures LcsBacktrack(s1[..i], s2[..j]) ==
      if s1[i - 1] == s2[j - 1] then LcsBacktrack(s1[..i - 1], s2[..j - 1]) + [s1[i - 1]]
      else if dp[i - 1][j] > dp[i][j - 1] then LcsBacktrack(s1[..i - 1], s2[..j])
      else LcsBacktrack(s1[..i], s2[..j - 1])
  {
    assert s1[..i][..i - 1] == s1[..i - 1] && s2[..j][..j - 1] == s2[..j - 1];
    assert dp[i - 1][j] == Lcs(s1[..i - 1], s2[..j]) && dp[i][j - 1] == Lcs(s1[..i], s2[..j - 1]);
  }

  lemma {:induction false} LcsSymmetric(a: string, b: string)
    ensures Lcs(a, b) == Lcs(b, a)
    decreases |a| + |b|
  {
    if |a| > 0 && |b| > 0 {
      LcsSymmetric(a[..|a| - 1], b[..|b| - 1]);
      LcsSymmetric(a[..|a| - 1], b);
      LcsSymmetric(a, b[..|b| - 1]);
    }
  }

  /** Dropping the last character of a never lengthens the LCS. */
  lemma {:induction false} LcsDropLeft(a: string, b: string)
    requires |a| > 0
    ensures Lcs(a[..|a| - 1], b) <= Lcs(a, b)
    decreases |a| + |b|, 1
  {
    if |b| > 0 && a[|a| - 1] == b[|b| - 1] {
      LcsDropRightByOne(a[..|a| - 1], b);
    }
  }

  /** Dropping the last character of b shortens the LCS by at most one. */
  lemma {:induction false} LcsDropRightByOne(a: string, b: string)
    requires |b| > 0
    ensures Lcs(a, b) <= Lcs(a, b[..|b| - 1]) + 1
    decreases |a| + |b|, 0
  {
    if |a| > 0 {
      var a', b' := a[..|a| - 1], b[..|b| - 1];
      LcsDropLeft(a, b');
      if a[|a| - 1] != b[|b| - 1] {
        LcsDropRightByOne(a', b);
      }
    }
  }

  /** No common subsequence is longer than the LCS length. */
  lemma {:induction false} LcsIsUpperBound(c: string, a: string, b: string)
    requires IsSubseq(c, a) && IsSubseq(c, b)
    ensures |c| <= Lcs(a, b)
    decreases |a| + |b|
  {
    if c != [] {
      var a', b' := a[..|a| - 1], b[..|b| - 1];
      if IsSubseq(c, a') {
        LcsIsUpperBound(c, a', b);
        LcsDropLeft(a, b);
      } else if IsSubseq(c, b') {
        LcsIsUpperBound(c, a, b');
        LcsSymmetric(a, b);
        LcsSymmetric(a, b');
        LcsDropLeft(b, a);
      } else {
        LcsIsUpperBound(c[..|c| - 1], a', b');
      }
    }
  }

  /** A subsequence of a prefix is a subsequence of the whole. */
  lemma {:induction false} SubseqExtend(c: string, a: string, x: char)
    requires IsSubseq(c, a)
    ensures IsSubseq(c, a + [x])
  {
    assert (a + [x])[..|a|] == a;
  }

  /** The backtracked string is a common subsequence of both strings with
      the LCS length, so with LcsIsUpperBound it is a longest one. */
  lemma {:induction false} LcsBacktrackIsLongest(a: string, b: string)
    ensures |LcsBacktrack(a, b)| == Lcs(a, b)
    ensures IsSubseq(LcsBacktrack(a, b), a) && IsSubseq(LcsBacktrack(a, b), b)
    decreases |a| + |b|
  {
    if |a| > 0 && |b| > 0 {
      var a', b' := a[..|a| - 1], b[..|b| - 1];
      assert a == a' + [a[|a| - 1]] && b == b' + [b[|b| - 1]];
      var r := LcsBacktrack(a, b);
      if a[|a| - 1] == b[|b| - 1] {
        LcsBacktrackIsLongest(a', b');
        assert r[..|r| - 1] == LcsBacktrack(a', b');
      } else if Lcs(a', b) > Lcs(a, b') {
        LcsBacktrackIsLongest(a', b);
        if r != [] {
          SubseqExtend(r, a', a[|a| - 1]);
        }
      } else {
        LcsBacktrackIsLongest(a, b');
        if r != [] {
          SubseqExtend(r, b', b[|b| - 1]);
        }
      }
    }
  }

  /** dp[m][n] <= min(m, n). */
  lemma {:induction false} LcsAtMostShorter(a: string, b: string)
    ensures Lcs(a, b) <= Min(|a|, |b|)
    decreases |a| + |b|
  {
    if |a| > 0 && |b| > 0 {
      LcsAtMostShorter(a[..|a| - 1], b[..|b| - 1]);
      LcsAtMostShorter(a[..|a| - 1], b);
      LcsAtMostShorter(a, b[..|b| - 1]);
    }
  }

  // ---------------------------------------------------------------------
  // Edit distance

  /** The edit-distance recurrence on prefixes. */
  function Ed(a: string, b: string): nat
    decreases |a| + |b|
  {
    if |a| == 0 then |b|
    else if |b| == 0 then |a|
    else if a[|a| - 1] == b[|b| - 1] then Ed(a[..|a| - 1], b[..|b| - 1])
    else
      var insert := Ed(a, b[..|b| - 1]) + 1;
      var delete := Ed(a[..|a| - 1], b) + 1;
      var replace := Ed(a[..|a| - 1], b[..|b| - 1]) + 1;
      Min(insert, Min(delete, replace))
  }

  ghost predicate EdFilled(dp: Table, s1: string, s2: string, i: int, j: int) {
    |dp| == |s1| + 1 && (forall r :: 0 <= r <= |s1| ==> |dp[r]| == |s2| + 1)
    && forall r, c :: 0 <= r <= |s1| && 0 <= c <= |s2| && (r == 0 || c == 0 || r < i || (r == i && c < j)) ==>
         dp[r][c] == Ed(s1[..r], s2[..c])
  }

  ghost predicate EdSteps(steps: seq<DPStep>, s1: string, s2: string) {
    forall k :: 0 <= k < |steps| ==>
      steps[k].step == k && 0 <= steps[k].row <= |s1| && 0 <= steps[k].col <= |s2|
      && steps[k].value == Ed(s1[..steps[k].row], s2[..steps[k].col])
  }

  lemma EdCell(s1: string, s2: string, i: int, j: int)
    requires 1 <= i <= |s1| && 1 <= j <= |s2|
    ensures Ed(s1[..i], s2[..j]) ==
      if s1[i - 1] == s2[j - 1] then Ed(s1[..i - 1], s2[..j - 1])
      else Min(Ed(s1[..i], s2[..j - 1]) + 1, Min(Ed(s1[..i - 1], s2[..j]) + 1, Ed(s1[..i - 1], s2[..j - 1]) + 1))
  {
    assert s1[..i][..i - 1] == s1[..i - 1] && s2[..j][..j - 1] == s2[..j - 1];
  }

  /** `generateEditDistanceSteps`: the table holds the edit distance of
      every pair of prefixes, every step shows its cell's distance, and the
      last step shows the distance of the whole strings. */
  method EditDistanceSteps(s1: string, s2: string) returns (steps: seq<DPStep>, dp: Table)
    ensures EdFilled(dp, s1, s2, |s1| + 1, 0)
    ensures |steps| > 0 && EdSteps(steps, s1, s2)
    ensures steps[|steps| - 1] == DPStep(|steps| - 1, |s1|, |s2|, Ed(s1, s2), Solution)
  {
    var m, n := |s1|, |s2|;
    dp := Zeros(m, n);
    steps := [];
    for i := 0 to m + 1
      invariant |dp| == m + 1 && forall r :: 0 <= r <= m ==> |dp[r]| == n + 1
      invariant forall r :: 0 <= r < i ==> dp[r][0] == r
      invariant EdSteps(steps, s1, s2)
    {
      dp := Set(dp, i, 0, i);
      steps := steps + [DPStep(|steps|, i, 0, i, Compute)];
    }
    for j := 1 to n + 1
      invariant |dp| == m + 1 && forall r :: 0 <= r <= m ==> |dp[r]| == n + 1
      invariant forall r :: 0 <= r <= m ==> dp[r][0] == r
      invariant forall c :: 0 <= c < j ==> dp[0][c] == c
      invariant EdSteps(steps, s1, s2)
    {
      dp := Set(dp, 0, j, j);
      steps := steps + [DPStep(|steps|, 0, j, j, Compute)];
    }
    for i := 1 to m + 1
      invariant EdFilled(dp, s1, s2, i, 0) && EdSteps(steps, s1, s2)
    {
      dp, steps := EdFillRow(s1, s2, i, dp, steps);
    }
    assert s1[..m] == s1 && s2[..n] == s2;
    steps := steps + [DPStep(|steps|, m, n, dp[m][n], Solution)];
  }

  /** One row of the fill loop: a match copies the diagonal, otherwise the
      cheapest of insert, delete and replace. */
  method EdFillRow(s1: string, s2: string, i: nat, dp0: Table, steps0: seq<DPStep>) returns (dp: Table, steps: seq<DPStep>)
    requires 1 <= i <= |s1| && EdFilled(dp0, s1, s2, i, 0) && EdSteps(steps0, s1, s2)
    ensures EdFilled(dp, s1, s2, i + 1, 0) && EdSteps(steps, s1, s2)
  {
    dp, steps := dp0, steps0;
    for j := 1 to |s2| + 1
      invariant EdFilled(dp, s1, s2, i, j) && EdSteps(steps, s1, s2)
    {
      EdCell(s1, s2, i, j);
      var v;
      if s1[i - 1] == s2[j - 1] {
        v := dp[i - 1][j - 1];
      } else {
        var insert := dp[i][j - 1] + 1;
        var delete := dp[i - 1][j] + 1;
        var replace := dp[i - 1][j - 1] + 1;
        v := Min(insert, Min(delete, replace));
      }
      EdFilledNext(dp, s1, s2, i, j, v);
      dp := Set(dp, i, j, v);
      steps := steps + [DPStep(|steps|, i, j, v, Compute)];
    }
  }

  /** Writing the right value into cell (i, j) extends the filled region. */
  lemma EdFilledNext(dp: Table, s1: string, s2: string, i: int, j: int, v: int)
    requires 1 <= i <= |s1| && 1 <= j <= |s2| && EdFilled(dp, s1, s2, i, j)
    requires v == Ed(s1[..i], s2[..j])
    ensures EdFilled(Set(dp, i, j, v), s1, s2, i, j + 1)
  {
  }

  /** Deleting every character of the longer string's excess and replacing
      the rest bounds the distance by the longer length. */
  lemma {:induction false} EdAtMostLonger(a: string, b: string)
    ensures Ed(a, b) <= Max(|a|, |b|)
    decreases |a| + |b|
  {
    if |a| > 0 && |b| > 0 {
      EdAtMostLonger(a[..|a| - 1], b[..|b| - 1]);
    }
  }

  /** Each operation changes the length by at most one. */
  lemma {:induction false} EdAtLeastLengthGap(a: string, b: string)
    ensures Ed(a, b) >= |a| - |b| && Ed(a, b) >= |b| - |a|
    decreases |a| + |b|
  {
    if |a| > 0 && |b| > 0 {
      EdAtLeastLengthGap(a[..|a| - 1], b[..|b| - 1]);
      EdAtLeastLengthGap(a, b[..|b| - 1]);
      EdAtLeastLengthGap(a[..|a| - 1], b);
    }
  }

  /** The distance is zero exactly for equal strings. */
  lemma {:induction false} EdZeroIffEqual(a: string, b: string)
    ensures Ed(a, b) == 0 <==> a == b
    decreases |a| + |b|
  {
    if |a| > 0 && |b| > 0 {
      var a', b' := a[..|a| - 1], b[..|b| - 1];
      assert a == a' + [a[|a| - 1]] && b == b' + [b[|b| - 1]];
      EdZeroIffEqual(a', b');
      if a == b {
        assert a' == b';
      }
    }
  }

  lemma {:induction false} EdSymmetric(a: string, b: string)
    ensures Ed(a, b) == Ed(b, a)
    decreases |a| + |b|
  {
    if |a| > 0 && |b| > 0 {
      EdSymmetric(a[..|a| - 1], b[..|b| - 1]);
      EdSymmetric(a[..|a| - 1], b);
      EdSymmetric(a, b[..|b| - 1]);
    }
  }

  // ---------------------------------------------------------------------
  // 0/1 knapsack

  datatype Item = Item(weight: nat, value: int, name: string)

  /** The best value of items within capacity w, by the table recurrence on
      item prefixes. */
  function Knap(items: seq<Item>, w: nat): int
  {
    if items == [] then 0
    else
      var item := items[|items| - 1];
      var rest := items[..|items| - 1];
      if item.weight <= w then Max(Knap(rest, w - item.weight) + item.value, Knap(rest, w))
      else Knap(rest, w)
  }

  ghost predicate KnapFilled(dp: Table, items: seq<Item>, cap: nat, i: int, j: int) {
    |dp| == |items| + 1 && (forall r :: 0 <= r <= |items| ==> |dp[r]| == cap + 1)
    && forall r, c :: 0 <= r <= |items| && 0 <= c <= cap && (r == 0 || r < i || (r == i && c < j)) ==>
         dp[r][c] == Knap(items[..r], c)
  }

  ghost predicate KnapSteps(steps: seq<DPStep>, items: seq<Item>, cap: nat) {
    forall k :: 0 <= k < |steps| ==>
      steps[k].step == k && 0 <= steps[k].row <= |items| && 0 <= steps[k].col <= cap
      && steps[k].value == Knap(items[..steps[k].row], steps[k].col)
  }

  /** `generateKnapsackSteps`: the table holds the best value of every item
      prefix at every capacity, every step shows its cell, and the last step
      shows the best value of all items at the full capacity. */
  method KnapsackSteps(items: seq<Item>, cap: nat) returns (steps: seq<DPStep>, dp: Table)
    ensures KnapFilled(dp, items, cap, |items| + 1, 0)
    ensures |steps| > 0 && KnapSteps(steps, items, cap)
    ensures steps[|steps| - 1] == DPStep(|steps| - 1, |items|, cap, Knap(items, cap), Solution)
  {
    var n := |items|;
    dp := Zeros(n, cap);
    steps := [];
    for w := 0 to cap + 1
      invariant KnapSteps(steps, items, cap)
    {
      steps := steps + [DPStep(|steps|, 0, w, 0, Compute)];
    }
    for i := 1 to n + 1
      invariant KnapFilled(dp, items, cap, i, 0) && KnapSteps(steps, items, cap)
    {
      dp, steps := KnapFillRow(items, cap, i, dp, steps);
    }
    assert items[..n] == items;
    steps := steps + [DPStep(|steps|, n, cap, dp[n][cap], Solution)];
  }

  /** One row of the fill loop: the better of taking item i and leaving it,
      or leaving it when it does not fit. */
  method KnapFillRow(items: seq<Item>, cap: nat, i: nat, dp0: Table, steps0: seq<DPStep>) returns (dp: Table, steps: seq<DPStep>)
    requires 1 <= i <= |items| && KnapFilled(dp0, items, cap, i, 0) && KnapSteps(steps0, items, cap)
    ensures KnapFilled(dp, items, cap, i + 1, 0) && KnapSteps(steps, items, cap)
  {
    dp, steps := dp0, steps0;
    var item := items[i - 1];
    assert items[..i][..i - 1] == items[..i - 1];
    for w := 0 to cap + 1
      invariant KnapFilled(dp, items, cap, i, w) && KnapSteps(steps, items, cap)
    {
      var v;
      if item.weight <= w {
        var taken := dp[i - 1][w - item.weight] + item.value;
        var exclude := dp[i - 1][w];
        v := Max(taken, exclude);
      } else {
        v := dp[i - 1][w];
      }
      dp := Set(dp, i, w, v);
      steps := steps + [DPStep(|steps|, i, w, v, Compute)];
    }
  }

  /** The weight and value of the items a selection marks. */
  function Weight(items: seq<Item>, sel: seq<bool>): nat
    requires |sel| == |items|
  {
    if items == [] then 0
    else Weight(items[..|items| - 1], sel[..|sel| - 1]) + (if sel[|sel| - 1] then items[|items| - 1].weight else 0)
  }

  function Value(items: seq<Item>, sel: seq<bool>): int
    requires |sel| == |items|
  {
    if items == [] then 0
    else Value(items[..|items| - 1], sel[..|sel| - 1]) + (if sel[|sel| - 1] then items[|items| - 1].value else 0)
  }

  /** No selection within the capacity is worth more than the table's
      value. */
  lemma {:induction false} KnapIsUpperBound(items: seq<Item>, sel: seq<bool>, w: nat)
    requires |sel| == |items| && Weight(items, sel) <= w
    ensures Value(items, sel) <= Knap(items, w)
  {
    if items != [] {
      var rest, sel' := items[..|items| - 1], sel[..|sel| - 1];
      var item := items[|items| - 1];
      if sel[|sel| - 1] {
        KnapIsUpperBound(rest, sel', w - item.weight);
      } else {
        KnapIsUpperBound(rest, sel', w);
      }
    }
  }

  /** The selection the table's choices describe. */
  function Choose(items: seq<Item>, w: nat): (sel: seq<bool>)
    ensures |sel| == |items|
  {
    if items == [] then []
    else
      var item := items[|items| - 1];
      var rest := items[..|items| - 1];
      if item.weight <= w && Knap(rest, w - item.weight) + item.value >= Knap(rest, w) then Choose(rest, w - item.weight) + [true]
      else Choose(rest, w) + [false]
  }

  /** The table's value is reached by a selection within the capacity, so
      with KnapIsUpperBound it is the optimum. */
  lemma {:induction false} KnapIsAchieved(items: seq<Item>, w: nat)
    ensures Weight(items, Choose(items, w)) <= w && Value(items, Choose(items, w)) == Knap(items, w)
  {
    if items != [] {
      var item := items[|items| - 1];
      var rest := items[..|items| - 1];
      var sel := Choose(items, w);
      if item.weight <= w && Knap(rest, w - item.weight) + item.value >= Knap(rest, w) {
        KnapIsAchieved(rest, w - item.weight);
        assert sel[..|sel| - 1] == Choose(rest, w - item.weight);
      } else {
        KnapIsAchieved(rest, w);
        assert sel[..|sel| - 1] == Choose(rest, w);
      }
    }
  }

  /** Each row of the table is non-decreasing in the capacity. */
  lemma KnapMonotone(items: seq<Item>, w: nat, w': nat)
    requires w <= w'
    ensures Knap(items, w) <= Knap(items, w')
  {
    KnapIsAchieved(items, w);
    KnapIsUpperBound(items, Choose(items, w), w');
  }

  // ---------------------------------------------------------------------
  // The dispatcher

  /** The algorithms the page offers; coin change, matrix chain and the
      longest increasing subsequence have no step generator. */
  datatype Algorithm = FibonacciAlg | LcsAlg | EditDistanceAlg | KnapsackAlg | CoinChangeAlg | MatrixChainAlg | LisAlg

  /** `generateSteps`: runs the selected generator, and Fibonacci for an
      algorithm without one. The final step is the solution the selected
      generator computes. */
  method GenerateSteps(algorithm: Algorithm, fibN: nat, s1: string, s2: string, items: seq<Item>, cap: nat)
    returns (steps: seq<DPStep>)
    ensures |steps| > 0 && steps[|steps| - 1].action == Solution
    ensures steps[|steps| - 1].value ==
      match algorithm
      case LcsAlg => Lcs(s1, s2)
      case EditDistanceAlg => Ed(s1, s2)
      case KnapsackAlg => Knap(items, cap)
      case _ => Fib(fibN)
  {
    match algorithm
    case LcsAlg =>
      var dp, lcs;
      steps, dp, lcs := LcsStepsOf(s1, s2);
    case EditDistanceAlg =>
      var dp;
      steps, dp := EditDistanceSteps(s1, s2);
    case KnapsackAlg =>
      var dp;
      steps, dp := KnapsackSteps(items, cap);
    case _ =>
      var dp;
      steps, dp := FibonacciSteps(fibN);
  }
}
