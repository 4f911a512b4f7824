/** The Fenwick tree page: a binary indexed tree over an integer array,
    1-based, in which cell j holds the sum of the LowBit(j) values ending
    at position j. Point updates climb by adding the lowest set bit,
    prefix queries descend by removing it. */
module FenwickTreePage {
  import opened Common

  /** `i & (-i)` for a positive i: the largest power of two dividing i. */
  function LowBit(i: int): (r: int)
    requires i > 0
    ensures 1 <= r <= i
    decreases i
  {
    if i % 2 == 1 then 1 else 2 * LowBit(i / 2)
  }

  /** LowBit(i) is a power of two, and i is an odd multiple of it: it is
      the value of the lowest set bit of i. */
  lemma LowBitIsLowestBit(i: int)
    requires i > 0
    ensures IsPowerOfTwo(LowBit(i))
    ensures exists k :: k % 2 == 1 && i == k * LowBit(i)
  {
    var k := OddPart(i);
  }

  /** The odd factor k of i = k * LowBit(i). */
  lemma {:induction false} OddPart(i: int) returns (k: int)
    requires i > 0
    ensures IsPowerOfTwo(LowBit(i)) && k % 2 == 1 && i == k * LowBit(i)
    decreases i
  {
    if i % 2 == 1 {
      k := i;
    } else {
      var h := LowBit(i / 2);
      k := OddPart(i / 2);
      assert LowBit(i) == 2 * h && i == 2 * (i / 2);
      Doubled(k, h, i / 2);
      assert IsPowerOfTwo(2 * h) by { assert (2 * h) / 2 == h; }
    }
  }

  lemma Doubled(k: int, h: int, j: int)
    requires j == k * h
    ensures 2 * j == k * (2 * h)
  {
  }

  predicate IsPowerOfTwo(x: int)
    decreases x
  {
    x == 1 || (x > 1 && x % 2 == 0 && IsPowerOfTwo(x / 2))
  }

  /** getParent(i) = i - (i & -i): the next cell a prefix query reads. */
  function GetParent(i: int): (r: int)
    requires i > 0
    ensures 0 <= r < i
  {
    i - LowBit(i)
  }

  /** getNext(i) = i + (i & -i): the next cell an update writes. */
  function GetNext(i: int): (r: int)
    requires i > 0
    ensures r > i
  {
    i + LowBit(i)
  }

  /** Cell j (1-based) covers position p (1-based) when p lies in the
      block (j - LowBit(j), j]. */
  predicate Covers(j: int, p: int)
    requires j > 0
  {
    j - LowBit(j) < p <= j
  }

  /** Adding to a multiple of LowBit(c) something smaller than LowBit(c)
      keeps the lowest bit of the addend. */
  lemma {:induction false} LowBitOfSum(c: int, d: int)
    requires c > 0 && 0 < d < LowBit(c)
    ensures LowBit(c + d) == LowBit(d)
    decreases c
  {
    if d % 2 == 0 {
      LowBitOfSum(c / 2, d / 2);
      assert (c + d) / 2 == c / 2 + d / 2;
    }
  }

  /** Adding the lowest bit at least doubles it: c + LowBit(c) is a
      multiple of 2 LowBit(c). */
  lemma {:induction false} LowBitNext(c: int)
    requires c > 0
    ensures LowBit(GetNext(c)) >= 2 * LowBit(c)
    decreases c
  {
    if c % 2 == 1 {
      assert LowBit(c + 1) == 2 * LowBit((c + 1) / 2);
    } else {
      LowBitNext(c / 2);
      assert (c + LowBit(c)) / 2 == c / 2 + LowBit(c / 2);
    }
  }

  /** The climb of an update: from a cell covering p, the next cell covers p
      too, and no cell strictly between them does. So the cells an update
      writes are exactly the cells covering its position. */
  lemma NextStep(i: int, p: int)
    requires i > 0 && Covers(i, p)
    ensures Covers(GetNext(i), p)
    ensures forall j :: i < j < GetNext(i) ==> !Covers(j, p)
  {
    LowBitNext(i);
    forall j | i < j < GetNext(i)
      ensures !Covers(j, p)
    {
      LowBitOfSum(i, j - i);
    }
  }

  /** The tree property: cell 0 is unused and stays 0, cell j holds the
      sum of its block of values. */
  ghost predicate IsFenwick(tree: seq<int>, values: seq<int>) {
    && |tree| == |values| + 1
    && tree[0] == 0
    && forall j :: 1 <= j <= |values| ==> tree[j] == SumRange(values, j - LowBit(j), j)
  }

  /** A zero array has the all-zero tree. */
  lemma ZeroTree(tree: seq<int>, n: nat)
    requires |tree| == n + 1 && forall j :: 0 <= j <= n ==> tree[j] == 0
    ensures IsFenwick(tree, seq(n, _ => 0))
  {
    var zeros: seq<int> := seq(n, _ => 0);
    forall j | 1 <= j <= n
      ensures tree[j] == SumRange(zeros, j - LowBit(j), j)
    {
      ZeroSum(zeros, j - LowBit(j), j);
    }
  }

  lemma {:induction false} ZeroSum(s: seq<int>, lo: int, hi: int)
    requires 0 <= lo <= hi <= |s| && forall k :: 0 <= k < |s| ==> s[k] == 0
    ensures SumRange(s, lo, hi) == 0
    decreases hi - lo
  {
    if lo < hi {
      ZeroSum(s, lo, hi - 1);
    }
  }

  /** The tree after adding delta at 0-based index: the cells covering
      index + 1 grew by delta, the others did not change. */
  lemma FenwickAfterAdd(t0: seq<int>, t: seq<int>, v0: seq<int>, index: int, delta: int)
    requires IsFenwick(t0, v0) && 0 <= index < |v0| && |t| == |t0| && t[0] == 0
    requires forall j :: 1 <= j <= |v0| ==> t[j] == t0[j] + (if Covers(j, index + 1) then delta else 0)
    ensures IsFenwick(t, v0[index := v0[index] + delta])
  {
    forall j | 1 <= j <= |v0|
      ensures t[j] == SumRange(v0[index := v0[index] + delta], j - LowBit(j), j)
    {
      SumRangeUpdate(v0, index, delta, j - LowBit(j), j);
    }
  }

  /** A prefix sum splits at a cell's block. */
  lemma PrefixStep(tree: seq<int>, values: seq<int>, i: int)
    requires IsFenwick(tree, values) && 1 <= i <= |values|
    ensures SumRange(values, 0, i) == SumRange(values, 0, GetParent(i)) + tree[i]
  {
    SumRangeSplit(values, 0, GetParent(i), i);
  }

  class FenwickTree {
    var tree: array<int>
    const size: nat
    /** The array the tree currently sums. */
    ghost var values: seq<int>

    ghost predicate Valid()
      reads this, tree
    {
      tree.Length == size + 1 && |values| == size && IsFenwick(tree[..], values)
    }

    /** new FenwickTree(arr): a zero tree of length n + 1, then every
        element added in turn with updateTree. */
    constructor (arr: array<int>)
      ensures Valid() && fresh(tree)
      ensures size == arr.Length && values == arr[..]
    {
      size := arr.Length;
      tree := new int[arr.Length + 1](_ => 0);
      values := seq(arr.Length, _ => 0);
      new;
      ZeroTree(tree[..], size);
      var i := 0;
      while i < arr.Length
        invariant 0 <= i <= arr.Length && Valid() && fresh(tree)
        invariant values == arr[..i] + seq(arr.Length - i, _ => 0)
      {
        UpdateTree(i, arr[i]);
        assert values == arr[..i + 1] + seq(arr.Length - (i + 1), _ => 0);
        i := i + 1;
      }
      assert arr[..i] + seq(0, _ => 0) == arr[..];
    }

    /** updateTree(index, delta): starting at index + 1, add delta to the
        cell and move to getNext while inside the tree. */
    method UpdateTree(index: int, delta: int)
      requires Valid() && 0 <= index < size
      modifies tree, this`values
      ensures Valid()
      ensures values == old(values)[index := old(values)[index] + delta]
    {
      ghost var t0 := tree[..];
      ghost var p := index + 1;
      var i := index + 1;
      while i <= size
        invariant p <= i && Covers(i, p)
        invariant values == old(values)
        invariant tree[0] == 0
        invariant forall j :: 1 <= j <= size ==> tree[j] == t0[j] + (if j < i && Covers(j, p) then delta else 0)
        decreases size + 1 - i
      {
        tree[i] := tree[i] + delta;
        NextStep(i, p);
        i := GetNext(i);
      }
      ghost var after := values[index := values[index] + delta];
      FenwickAfterAdd(t0, tree[..], values, index, delta);
      values := after;
      assert IsFenwick(tree[..], values);
    }

    /** update(index, newValue, arr): the delta is the new value minus
        arr[index], arr[index] takes the new value and the delta climbs the
        tree. When arr is the array the tree sums, it still is afterwards. */
    method Update(index: int, newValue: int, arr: array<int>)
      requires Valid() && 0 <= index < size && arr.Length == size && arr != tree
      modifies tree, this`values, arr
      ensures Valid()
      ensures arr[..] == old(arr[..])[index := newValue]
      ensures values == old(values)[index := old(values)[index] + newValue - old(arr[index])]
      ensures old(arr[..]) == old(values) ==> values == arr[..]
    {
      var oldValue := arr[index];
      var delta := newValue - oldValue;
      arr[index] := newValue;
      UpdateTree(index, delta);
    }

    /** query(index): the sum of positions 0..index, read by descending
        from cell index + 1 through getParent. query(-1) is 0. */
    method Query(index: int) returns (sum: int)
      requires Valid() && -1 <= index < size
      ensures sum == SumRange(values, 0, index + 1)
    {
      sum := 0;
      var i := index + 1;
      while i > 0
        invariant 0 <= i <= index + 1
        invariant sum + SumRange(values, 0, i) == SumRange(values, 0, index + 1)
      {
        PrefixStep(tree[..], values, i);
        sum := sum + tree[i];
        i := GetParent(i);
      }
    }

    /** rangeQuery(left, right): query(right), minus query(left - 1) when
        left is not 0. */
    method RangeQuery(left: int, right: int) returns (result: int)
      requires Valid() && 0 <= left <= right < size
      ensures result == SumRange(values, left, right + 1)
    {
      SumRangeSplit(values, 0, left, right + 1);
      if left == 0 {
        result := Query(right);
      } else {
        var rightSum := Query(right);
        var leftSum := Query(left - 1);
        result := rightSum - leftSum;
      }
    }
  }

  /** performQuery: the two boxes are read with parseInt; NaN, left < 0,
      right >= n or left > right is ignored (None). Otherwise a tree is
      built over the current array and the range sum is reported. */
  method PerformQuery(current: seq<int>, queryLeft: string, queryRight: string) returns (r: Option<int>)
    ensures r.None? <==>
      || ParseDecimal(queryLeft).None? || ParseDecimal(queryRight).None?
      || ParseDecimal(queryLeft).value < 0 || ParseDecimal(queryRight).value >= |current|
      || ParseDecimal(queryLeft).value > ParseDecimal(queryRight).value
    ensures r.Some? ==> r.value == SumRange(current, ParseDecimal(queryLeft).value, ParseDecimal(queryRight).value + 1)
  {
    var left, right := ParseDecimal(queryLeft), ParseDecimal(queryRight);
    if left.None? || right.None? || left.value < 0 || right.value >= |current| || left.value > right.value {
      return None;
    }
    var arr := FromSeq(current);
    var fenwickTree := new FenwickTree(arr);
    var sum := fenwickTree.RangeQuery(left.value, right.value);
    r := Some(sum);
  }

  /** performUpdate: NaN or an index outside the array is ignored (None);
      otherwise the new array has the value at that index, and a tree built
      over the current array and updated sums exactly the new array. */
  method PerformUpdate(current: seq<int>, updateIndex: string, updateValue: string) returns (r: Option<seq<int>>)
    ensures r.None? <==>
      || ParseDecimal(updateIndex).None? || ParseDecimal(updateValue).None?
      || ParseDecimal(updateIndex).value < 0 || ParseDecimal(updateIndex).value >= |current|
    ensures r.Some? ==> r.value == current[ParseDecimal(updateIndex).value := ParseDecimal(updateValue).value]
  {
    var index, value := ParseDecimal(updateIndex), ParseDecimal(updateValue);
    if index.None? || value.None? || index.value < 0 || index.value >= |current| {
      return None;
    }
    var newArray := FromSeq(current);
    var fenwickTree := new FenwickTree(newArray);
    fenwickTree.Update(index.value, value.value, newArray);
    assert fenwickTree.values == newArray[..];
    r := Some(newArray[..]);
  }
}
