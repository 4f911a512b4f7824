/** The segment tree page: range sums over an integer array, kept in an
    array of 4n cells in which node 1 covers [0, n - 1] and the children
    2 node and 2 node + 1 of a node covering [start, end] cover the two
    halves split at mid = floor((start + end) / 2). */
module SegmentTreePage {
  import opened Common

  function Mid(start: int, end: int): int {
    (start + end) / 2
  }

  /** k lies in the subtree rooted at node: node is reached from k by
      halving. */
  predicate IsDescendant(k: int, node: int)
    requires node >= 1
    decreases k
  {
    k == node || (k > node && IsDescendant(k / 2, node))
  }

  /** A node is a descendant of only one of two siblings. */
  lemma {:induction false} DescendantOfOneSibling(k: int, node: int)
    requires node >= 1 && IsDescendant(k, 2 * node)
    ensures !IsDescendant(k, 2 * node + 1)
    ensures IsDescendant(k, node) && k != node
    decreases k
  {
    if k != 2 * node {
      DescendantOfOneSibling(k / 2, node);
    }
  }

  /** The cell bound: a node at depth d has power p = 2^d with
      p <= node < 2p, and its range is short enough that p < 2n. */
  ghost predicate InBounds(n: int, node: int, start: int, end: int, p: int) {
    && 0 <= start <= end < n
    && 1 <= p <= node < 2 * p
    && p < 2 * n
    && Times(end - start, p) < n
  }

  /** a * p, by repeated addition, which keeps the bound arithmetic
      linear for the solver. */
  function Times(a: nat, p: nat): nat {
    if a == 0 then 0 else Times(a - 1, p) + p
  }

  lemma {:induction false} TimesMono(a: nat, b: nat, p: nat)
    requires a <= b
    ensures Times(a, p) <= Times(b, p)
    decreases b
  {
    if a < b {
      TimesMono(a, b - 1, p);
    }
  }

  lemma {:induction false} TimesOne(a: nat)
    ensures Times(a, 1) == a
  {
    if a > 0 {
      TimesOne(a - 1);
    }
  }

  lemma {:induction false} TimesDouble(a: nat, p: nat)
    ensures Times(a, 2 * p) == Times(2 * a, p)
  {
    if a > 0 {
      TimesDouble(a - 1, p);
      assert Times(2 * a, p) == Times(2 * (a - 1), p) + p + p;
    }
  }

  /** Both children of an inner node stay within bounds, and so every node
      the recursion visits has an index below 4n. */
  lemma ChildrenInBounds(n: int, node: int, start: int, end: int, p: int)
    requires InBounds(n, node, start, end, p) && start < end
    ensures InBounds(n, 2 * node, start, Mid(start, end), 2 * p)
    ensures InBounds(n, 2 * node + 1, Mid(start, end) + 1, end, 2 * p)
    ensures 2 * node + 1 < 4 * n
  {
    var mid := Mid(start, end);
    TimesMono(1, end - start, p);
    TimesDouble(mid - start, p);
    TimesMono(2 * (mid - start), end - start, p);
    TimesDouble(end - mid - 1, p);
    TimesMono(2 * (end - mid - 1), end - start, p);
  }

  /** The cells of the subtree of node, covering [start, end], hold the
      sums of their ranges of values. */
  ghost predicate Built(t: seq<int>, values: seq<int>, node: int, start: int, end: int)
    requires node >= 1 && 0 <= start <= end < |values|
    decreases end - start
  {
    && node < |t|
    && t[node] == SumRange(values, start, end + 1)
    && (start < end ==>
         && Built(t, values, 2 * node, start, Mid(start, end))
         && Built(t, values, 2 * node + 1, Mid(start, end) + 1, end))
  }

  /** Built reads only the cells of the subtree. */
  lemma {:induction false} BuiltFrame(t: seq<int>, t': seq<int>, values: seq<int>, node: int, start: int, end: int)
    requires node >= 1 && 0 <= start <= end < |values| && |t| == |t'|
    requires Built(t, values, node, start, end)
    requires forall k :: 0 <= k < |t| && IsDescendant(k, node) ==> t[k] == t'[k]
    ensures Built(t', values, node, start, end)
    decreases end - start
  {
    if start < end {
      var mid := Mid(start, end);
      forall k | 0 <= k < |t| && IsDescendant(k, 2 * node)
        ensures t[k] == t'[k]
      {
        DescendantOfOneSibling(k, node);
      }
      forall k | 0 <= k < |t| && IsDescendant(k, 2 * node + 1)
        ensures t[k] == t'[k]
      {
        DescendantOfRight(k, node);
      }
      BuiltFrame(t, t', values, 2 * node, start, mid);
      BuiltFrame(t, t', values, 2 * node + 1, mid + 1, end);
    }
  }

  lemma {:induction false} DescendantOfRight(k: int, node: int)
    requires node >= 1 && IsDescendant(k, 2 * node + 1)
    ensures IsDescendant(k, node) && k != node
    decreases k
  {
    if k != 2 * node + 1 {
      DescendantOfRight(k / 2, node);
    }
  }

  /** Built reads only the values inside the range. */
  lemma {:induction false} BuiltValuesFrame(t: seq<int>, values: seq<int>, node: int, start: int, end: int, index: int, x: int)
    requires node >= 1 && 0 <= start <= end < |values| && 0 <= index < |values|
    requires index < start || end < index
    requires Built(t, values, node, start, end)
    ensures Built(t, values[index := x], node, start, end)
    decreases end - start
  {
    SumRangeUpdate(values, index, x - values[index], start, end + 1);
    if start < end {
      BuiltValuesFrame(t, values, 2 * node, start, Mid(start, end), index, x);
      BuiltValuesFrame(t, values, 2 * node + 1, Mid(start, end) + 1, end, index, x);
    }
  }

  /** getNodeRange(nodeId, globalStart, globalEnd): the range of a node,
      found by walking up to the root and splitting at each mid on the way
      down. Every range it gives lies within the global range (a range
      past a leaf comes out empty, with left = right + 1). */
  function NodeRange(nodeId: int, globalStart: int, globalEnd: int): (r: (int, int))
    requires nodeId >= 1 && globalStart <= globalEnd
    ensures globalStart <= r.0 <= r.1 + 1 && r.1 <= globalEnd
    decreases nodeId
  {
    if nodeId == 1 then (globalStart, globalEnd)
    else
      var parentRange := NodeRange(nodeId / 2, globalStart, globalEnd);
      var mid := Mid(parentRange.0, parentRange.1);
      if nodeId % 2 == 0 then (parentRange.0, mid) else (mid + 1, parentRange.1)
  }

  /** getNodeRange splits a node's range at its mid between the two
      children, exactly as build does. */
  lemma NodeRangeOfChildren(node: int, globalStart: int, globalEnd: int)
    requires node >= 1 && globalStart <= globalEnd
    ensures var r := NodeRange(node, globalStart, globalEnd);
      && NodeRange(2 * node, globalStart, globalEnd) == (r.0, Mid(r.0, r.1))
      && NodeRange(2 * node + 1, globalStart, globalEnd) == (Mid(r.0, r.1) + 1, r.1)
  {
    assert (2 * node) / 2 == node && (2 * node + 1) / 2 == node;
  }

  /** The overlap of [start, end] with the query [left, right], as the
      sum the query collects from that node. */
  ghost function Overlap(values: seq<int>, start: int, end: int, left: int, right: int): int
    requires 0 <= start <= end < |values|
  {
    var lo, hi := Max(start, left), Min(end, right);
    if lo <= hi then SumRange(values, lo, hi + 1) else 0
  }

  class SegmentTree {
    var tree: array<int>
    const size: nat
    /** The array the tree currently sums. */
    ghost var values: seq<int>

    ghost predicate Valid()
      reads this, tree
    {
      && size >= 1 && tree.Length == 4 * size && |values| == size
      && Built(tree[..], values, 1, 0, size - 1)
    }

    /** new SegmentTree(arr): 4n zero cells, then build(arr, 1, 0, n - 1).
        The page's arrays have 4 to 8 elements; on an empty array build
        would recurse without end. */
    constructor (arr: array<int>)
      requires arr.Length >= 1
      ensures Valid() && fresh(tree)
      ensures size == arr.Length && values == arr[..]
    {
      size := arr.Length;
      tree := new int[4 * arr.Length](_ => 0);
      values := arr[..];
      new;
      TimesOne(size - 1);
      Build(arr, 1, 0, size - 1, 1);
    }

    /** build(arr, node, start, end): a leaf takes its value; an inner node
        builds both halves and takes their sum. Cells outside the subtree
        are left alone. */
    method Build(arr: array<int>, node: int, start: int, end: int, ghost p: int)
      requires tree.Length == 4 * size && arr[..] == values && |values| == size && arr != tree
      requires InBounds(size, node, start, end, p)
      modifies tree
      ensures Built(tree[..], values, node, start, end)
      ensures UnchangedOutside(old(tree[..]), tree[..], node)
      decreases end - start
    {
      if start == end {
        tree[node] := arr[start];
        assert SumRange(values, start, end + 1) == values[start];
        LeafWrite(old(tree[..]), node, tree[node]);
      } else {
        var mid := Mid(start, end);
        ChildrenInBounds(size, node, start, end, p);
        Build(arr, 2 * node, start, mid, 2 * p);
        ghost var t1 := tree[..];
        Build(arr, 2 * node + 1, mid + 1, end, 2 * p);
        ghost var t2 := tree[..];
        Assemble(old(tree[..]), t1, t2, values, node, start, end);
        tree[node] := tree[2 * node] + tree[2 * node + 1];
        assert tree[..] == t2[node := t2[2 * node] + t2[2 * node + 1]];
      }
    }

    /** query(left, right): the sum queryRange collects from the root. For
        a range inside the array this is arr[left] + … + arr[right]; in
        general it is the sum over the part of [left, right] inside the
        array. */
    method Query(left: int, right: int) returns (result: int)
      requires Valid()
      ensures result == Overlap(values, 0, size - 1, left, right)
      ensures 0 <= left <= right < size ==> result == SumRange(values, left, right + 1)
    {
      TimesOne(size - 1);
      result := QueryRange(1, 0, size - 1, left, right, 1);
    }

    /** queryRange: a node disjoint from the query contributes 0, a node
        inside it contributes its cell, any other node the sum of its two
        children's contributions. */
    method QueryRange(node: int, start: int, end: int, left: int, right: int, ghost p: int) returns (sum: int)
      requires tree.Length == 4 * size && |values| == size
      requires InBounds(size, node, start, end, p)
      requires Built(tree[..], values, node, start, end)
      ensures sum == Overlap(values, start, end, left, right)
      decreases end - start
    {
      if right < start || end < left {
        return 0;
      }
      if left <= start && end <= right {
        return tree[node];
      }
      var mid := Mid(start, end);
      ChildrenInBounds(size, node, start, end, p);
      var leftSum := QueryRange(2 * node, start, mid, left, right, 2 * p);
      var rightSum := QueryRange(2 * node + 1, mid + 1, end, left, right, 2 * p);
      OverlapSplit(start, mid, end, left, right);
      sum := leftSum + rightSum;
    }

    lemma OverlapSplit(start: int, mid: int, end: int, left: int, right: int)
      requires 0 <= start <= mid < end < |values| && left <= end && start <= right
      ensures Overlap(values, start, end, left, right)
           == Overlap(values, start, mid, left, right) + Overlap(values, mid + 1, end, left, right)
    {
      var lo, hi := Max(start, left), Min(end, right);
      if lo <= mid < hi {
        SumRangeSplit(values, lo, mid + 1, hi + 1);
      }
    }

    /** update(index, value, arr): arr[index] takes the value, and
        updateTree rewrites the leaf and the sums on its path. */
    method Update(index: int, value: int, arr: array<int>)
      requires Valid() && 0 <= index < size && arr.Length == size && arr != tree
      modifies tree, this`values, arr
      ensures Valid()
      ensures arr[..] == old(arr[..])[index := value]
      ensures values == old(values)[index := value]
    {
      arr[index] := value;
      TimesOne(size - 1);
      UpdateTree(1, 0, size - 1, index, value, 1);
      values := values[index := value];
    }

    /** updateTree: the leaf for index takes the value, and every node on
        the path back up takes the sum of its children. Only cells of the
        subtree change. */
    method UpdateTree(node: int, start: int, end: int, index: int, value: int, ghost p: int)
      requires tree.Length == 4 * size && |values| == size
      requires InBounds(size, node, start, end, p) && start <= index <= end
      requires Built(tree[..], values, node, start, end)
      modifies tree
      ensures Built(tree[..], values[index := value], node, start, end)
      ensures UnchangedOutside(old(tree[..]), tree[..], node)
      decreases end - start
    {
      if start == end {
        tree[node] := value;
        LeafUpdate(old(tree[..]), values, node, start, index, value);
      } else {
        var mid := Mid(start, end);
        ChildrenInBounds(size, node, start, end, p);
        ghost var t0 := tree[..];
        if index <= mid {
          UpdateTree(2 * node, start, mid, index, value, 2 * p);
        } else {
          UpdateTree(2 * node + 1, mid + 1, end, index, value, 2 * p);
        }
        ghost var t1 := tree[..];
        UpdateAssemble(t0, t1, values, node, start, end, index, value);
        tree[node] := tree[2 * node] + tree[2 * node + 1];
        assert tree[..] == t1[node := t1[2 * node] + t1[2 * node + 1]];
      }
    }
  }

  /** A leaf of the update takes the new value. */
  lemma LeafUpdate(t: seq<int>, values: seq<int>, node: int, start: int, index: int, value: int)
    requires 1 <= node < |t| && 0 <= start < |values| && index == start
    ensures Built(t[node := value], values[index := value], node, start, start)
    ensures UnchangedOutside(t, t[node := value], node)
  {
    assert SumRange(values[index := value], start, start + 1) == value;
  }

  /** The inner step of updateTree: the child holding index was updated,
      then the node's cell takes the sum of its children. */
  lemma UpdateAssemble(t0: seq<int>, t1: seq<int>, values: seq<int>, node: int, start: int, end: int, index: int, value: int)
    requires node >= 1 && 0 <= start <= index <= end < |values| && start < end && 2 * node + 1 < |t0| == |t1|
    requires Built(t0, values, node, start, end)
    requires index <= Mid(start, end) ==>
      Built(t1, values[index := value], 2 * node, start, Mid(start, end)) && UnchangedOutside(t0, t1, 2 * node)
    requires index > Mid(start, end) ==>
      Built(t1, values[index := value], 2 * node + 1, Mid(start, end) + 1, end) && UnchangedOutside(t0, t1, 2 * node + 1)
    ensures Built(t1[node := t1[2 * node] + t1[2 * node + 1]], values[index := value], node, start, end)
    ensures UnchangedOutside(t0, t1[node := t1[2 * node] + t1[2 * node + 1]], node)
  {
    OtherChildKept(t0, t1, values, node, start, end, index, value);
    AssembleBuilt(t1, values[index := value], node, start, end);
    WriteOwnCell(t0, t1, node, t1[2 * node] + t1[2 * node + 1]);
  }

  /** Writing a node's own cell keeps both of its children built. */
  lemma ChildrenAfterWrite(t: seq<int>, values: seq<int>, node: int, start: int, end: int, x: int)
    requires node >= 1 && 0 <= start < end < |values| && node < |t|
    requires Built(t, values, 2 * node, start, Mid(start, end))
    requires Built(t, values, 2 * node + 1, Mid(start, end) + 1, end)
    ensures Built(t[node := x], values, 2 * node, start, Mid(start, end))
    ensures Built(t[node := x], values, 2 * node + 1, Mid(start, end) + 1, end)
  {
    BuiltFrame(t, t[node := x], values, 2 * node, start, Mid(start, end));
    BuiltFrame(t, t[node := x], values, 2 * node + 1, Mid(start, end) + 1, end);
  }

  /** Only cells of the subtree of node differ. */
  ghost predicate UnchangedOutside(t: seq<int>, t': seq<int>, node: int)
    requires node >= 1
  {
    |t| == |t'| && forall k :: 0 <= k < |t| && !IsDescendant(k, node) ==> t[k] == t'[k]
  }

  lemma LeafWrite(t: seq<int>, node: int, x: int)
    requires 1 <= node < |t|
    ensures UnchangedOutside(t, t[node := x], node)
  {
  }

  /** A change inside one child's subtree changes nothing in the other
      child's subtree, and nothing outside the parent's. */
  lemma SiblingFrame(t: seq<int>, t': seq<int>, node: int, leftChanged: bool)
    requires node >= 1
    requires UnchangedOutside(t, t', if leftChanged then 2 * node else 2 * node + 1)
    ensures forall k :: 0 <= k < |t| && IsDescendant(k, if leftChanged then 2 * node + 1 else 2 * node) ==> t[k] == t'[k]
    ensures UnchangedOutside(t, t', node)
  {
    forall k | 0 <= k < |t| && !IsDescendant(k, node)
      ensures t[k] == t'[k]
    {
      NotDescendantOfChildren(k, node);
    }
    forall k | 0 <= k < |t| && IsDescendant(k, if leftChanged then 2 * node + 1 else 2 * node)
      ensures t[k] == t'[k]
    {
      if leftChanged {
        if IsDescendant(k, 2 * node) {
          DescendantOfOneSibling(k, node);
        }
      } else {
        DescendantOfOneSibling(k, node);
      }
    }
  }

  /** After updating the child that holds index, the other child is
      still built, for the updated values as well. */
  lemma OtherChildKept(t0: seq<int>, t1: seq<int>, values: seq<int>, node: int, start: int, end: int, index: int, value: int)
    requires node >= 1 && 0 <= start <= index <= end < |values| && start < end
    requires Built(t0, values, node, start, end)
    requires index <= Mid(start, end) ==>
      Built(t1, values[index := value], 2 * node, start, Mid(start, end)) && UnchangedOutside(t0, t1, 2 * node)
    requires index > Mid(start, end) ==>
      Built(t1, values[index := value], 2 * node + 1, Mid(start, end) + 1, end) && UnchangedOutside(t0, t1, 2 * node + 1)
    ensures Built(t1, values[index := value], 2 * node, start, Mid(start, end))
    ensures Built(t1, values[index := value], 2 * node + 1, Mid(start, end) + 1, end)
    ensures UnchangedOutside(t0, t1, node)
  {
    var mid := Mid(start, end);
    if index <= mid {
      SiblingFrame(t0, t1, node, true);
      BuiltFrame(t0, t1, values, 2 * node + 1, mid + 1, end);
      BuiltValuesFrame(t1, values, 2 * node + 1, mid + 1, end, index, value);
    } else {
      SiblingFrame(t0, t1, node, false);
      BuiltFrame(t0, t1, values, 2 * node, start, mid);
      BuiltValuesFrame(t1, values, 2 * node, start, mid, index, value);
    }
  }

  /** Writing the node's own cell keeps the frame of its subtree. */
  lemma WriteOwnCell(t0: seq<int>, t1: seq<int>, node: int, x: int)
    requires 1 <= node < |t1| && UnchangedOutside(t0, t1, node)
    ensures UnchangedOutside(t0, t1[node := x], node)
  {
  }

  /** The inner step of build: both halves built one after the other, then
      the node's cell written with their sum. */
  lemma Assemble(t0: seq<int>, t1: seq<int>, t2: seq<int>, values: seq<int>, node: int, start: int, end: int)
    requires node >= 1 && 0 <= start < end < |values| && node < |t0|
    requires Built(t1, values, 2 * node, start, Mid(start, end)) && UnchangedOutside(t0, t1, 2 * node)
    requires Built(t2, values, 2 * node + 1, Mid(start, end) + 1, end) && UnchangedOutside(t1, t2, 2 * node + 1)
    ensures Built(t2[node := t2[2 * node] + t2[2 * node + 1]], values, node, start, end)
    ensures UnchangedOutside(t0, t2[node := t2[2 * node] + t2[2 * node + 1]], node)
  {
    SiblingFrame(t1, t2, node, false);
    BuiltFrame(t1, t2, values, 2 * node, start, Mid(start, end));
    AssembleBuilt(t2, values, node, start, end);
    AssembleFrame(t0, t1, t2, node, t2[2 * node] + t2[2 * node + 1]);
  }

  lemma AssembleBuilt(t: seq<int>, values: seq<int>, node: int, start: int, end: int)
    requires node >= 1 && 0 <= start < end < |values| && node < |t|
    requires Built(t, values, 2 * node, start, Mid(start, end))
    requires Built(t, values, 2 * node + 1, Mid(start, end) + 1, end)
    ensures Built(t[node := t[2 * node] + t[2 * node + 1]], values, node, start, end)
  {
    SumRangeSplit(values, start, Mid(start, end) + 1, end + 1);
    ChildrenAfterWrite(t, values, node, start, end, t[2 * node] + t[2 * node + 1]);
  }

  lemma AssembleFrame(t0: seq<int>, t1: seq<int>, t2: seq<int>, node: int, x: int)
    requires 1 <= node < |t0|
    requires UnchangedOutside(t0, t1, 2 * node) && UnchangedOutside(t1, t2, 2 * node + 1)
    ensures UnchangedOutside(t0, t2[node := x], node)
  {
    SiblingFrame(t0, t1, node, true);
    SiblingFrame(t1, t2, node, false);
  }

  lemma NotDescendantOfChildren(k: int, node: int)
    requires node >= 1 && !IsDescendant(k, node)
    ensures !IsDescendant(k, 2 * node) && !IsDescendant(k, 2 * node + 1)
  {
    if IsDescendant(k, 2 * node) {
      DescendantOfOneSibling(k, node);
    }
    if IsDescendant(k, 2 * node + 1) {
      DescendantOfRight(k, node);
    }
  }

  /** The array after the recorded point writes, applied in order. */
  function Replayed(s: seq<int>, replay: seq<(int, int)>): (r: seq<int>)
    requires forall k :: 0 <= k < |replay| ==> 0 <= replay[k].0 < |s|
    ensures |r| == |s|
    ensures forall i :: 0 <= i < |s| && (forall k :: 0 <= k < |replay| ==> replay[k].0 != i) ==> r[i] == s[i]
  {
    if replay == [] then s
    else
      var last := replay[|replay| - 1];
      Replayed(s, replay[..|replay| - 1])[last.0 := last.1]
  }

  /** Writes that each agree with the array leave it as it is: replaying
      every recorded update onto the array they produced changes nothing. */
  lemma {:induction false} ReplayAgreeing(s: seq<int>, replay: seq<(int, int)>)
    requires forall k :: 0 <= k < |replay| ==> 0 <= replay[k].0 < |s| && s[replay[k].0] == replay[k].1
    ensures Replayed(s, replay) == s
  {
    if replay != [] {
      ReplayAgreeing(s, replay[..|replay| - 1]);
    }
  }

  /** reconstructTree: a tree over a copy of the current array, then each
      recorded update up to the current step is written into the copy and
      applied to the tree. The tree sums the current array with those
      writes replayed. */
  method ReconstructTree(current: seq<int>, replay: seq<(int, int)>) returns (segmentTree: SegmentTree)
    requires |current| >= 1
    requires forall k :: 0 <= k < |replay| ==> 0 <= replay[k].0 < |current|
    ensures fresh(segmentTree) && fresh(segmentTree.tree) && segmentTree.Valid()
    ensures segmentTree.values == Replayed(current, replay)
  {
    var currentArray := FromSeq(current);
    segmentTree := new SegmentTree(currentArray);
    var i := 0;
    while i < |replay|
      invariant 0 <= i <= |replay|
      invariant fresh(segmentTree) && fresh(segmentTree.tree) && segmentTree.Valid()
      invariant segmentTree.size == |current| && currentArray.Length == |current|
      invariant segmentTree.values == currentArray[..] == Replayed(current, replay[..i])
    {
      var step := replay[i];
      currentArray[step.0] := step.1;
      segmentTree.Update(step.0, step.1, currentArray);
      assert replay[..i + 1][..i] == replay[..i];
      i := i + 1;
    }
    assert replay[..i] == replay;
  }

  /** performQuery: NaN, left < 0, right >= n or left > right is ignored
      (None) before any tree is built; otherwise the rebuilt tree reports
      the range sum of the array with the recorded updates replayed. */
  method PerformQuery(current: seq<int>, replay: seq<(int, int)>, queryLeft: string, queryRight: string) returns (r: Option<int>)
    requires forall k :: 0 <= k < |replay| ==> 0 <= replay[k].0 < |current|
    ensures r.None? <==>
      || ParseDecimal(queryLeft).None? || ParseDecimal(queryRight).None?
      || ParseDecimal(queryLeft).value < 0 || ParseDecimal(queryRight).value >= |current|
      || ParseDecimal(queryLeft).value > ParseDecimal(queryRight).value
    ensures r.Some? ==> r.value == SumRange(Replayed(current, replay), ParseDecimal(queryLeft).value, ParseDecimal(queryRight).value + 1)
  {
    var left, right := ParseDecimal(queryLeft), ParseDecimal(queryRight);
    if left.None? || right.None? || left.value < 0 || right.value >= |current| || left.value > right.value {
      return None;
    }
    var segmentTree := ReconstructTree(current, replay);
    var sum := segmentTree.Query(left.value, right.value);
    r := Some(sum);
  }

  /** performUpdate: NaN or an index outside the array is ignored (None);
      otherwise the new array is a copy of the current one in which exactly
      that cell takes the new value, and the rebuilt tree, updated, sums
      the replayed array with that cell changed. */
  method PerformUpdate(current: seq<int>, replay: seq<(int, int)>, updateIndex: string, updateValue: string) returns (r: Option<seq<int>>)
    requires forall k :: 0 <= k < |replay| ==> 0 <= replay[k].0 < |current|
    ensures r.None? <==>
      || ParseDecimal(updateIndex).None? || ParseDecimal(updateValue).None?
      || ParseDecimal(updateIndex).value < 0 || ParseDecimal(updateIndex).value >= |current|
    ensures r.Some? ==> r.value == current[ParseDecimal(updateIndex).value := ParseDecimal(updateValue).value]
  {
    var index, value := ParseDecimal(updateIndex), ParseDecimal(updateValue);
    if index.None? || value.None? || index.value < 0 || index.value >= |current| {
      return None;
    }
    var newArray := FromSeq(current);
    var segmentTree := ReconstructTree(current, replay);
    segmentTree.Update(index.value, value.value, newArray);
    assert segmentTree.values == Replayed(current, replay)[index.value := value.value];
    r := Some(newArray[..]);
  }
}
