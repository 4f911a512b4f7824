/** The heap sort visualizer: heap sort of a copy of the array, with the
    animations it emits, and the tree drawn for an array in heap layout. */
module HeapSortVisualizer {
  import opened Common

  /** An animation: a comparison of two cells, an exchange of two cells, or
      a cell marked as being in its final place. */
  datatype HeapAnimation =
    | Compare(first: int, second: int)
    | Exchange(first: int, second: int)
    | SortedMark(index: int)

  /** The indices marked sorted, in the order they are marked. */
  function SortedMarks(anims: seq<HeapAnimation>): seq<int> {
    if anims == [] then []
    else SortedMarks(anims[..|anims| - 1]) + (if anims[|anims| - 1].SortedMark? then [anims[|anims| - 1].index] else [])
  }

  lemma SortedMarksAppend(anims: seq<HeapAnimation>, x: HeapAnimation)
    ensures SortedMarks(anims + [x]) == SortedMarks(anims) + (if x.SortedMark? then [x.index] else [])
  {
    assert (anims + [x])[..|anims|] == anims;
  }

  // ------------------------------------------------------------ heap order

  /** Within s[..n], every parent p >= r other than k is at least each of its
      children 2p+1 and 2p+2. */
  ghost predicate HeapBut(s: seq<int>, r: int, n: int, k: int) {
    forall p, c :: 0 <= r <= p && p != k && 0 <= c < n && c < |s| && (c == 2 * p + 1 || c == 2 * p + 2) ==> s[p] >= s[c]
  }

  /** s[..n] is a max-heap below r: every parent p >= r is at least its children. */
  ghost predicate Heap(s: seq<int>, r: int, n: int) {
    0 <= r && HeapBut(s, r, n, -1)
  }

  /** The parent of k, when it is at least r, is at least k's children. */
  ghost predicate Grand(s: seq<int>, r: int, n: int, k: int) {
    forall p, c :: 0 <= r <= p && (k == 2 * p + 1 || k == 2 * p + 2) && 0 <= c < n && c < |s| && (c == 2 * k + 1 || c == 2 * k + 2) ==> s[p] >= s[c]
  }

  /** Exchanging k with its larger child m, which beats k, moves the only
      possible violation down to m. */
  lemma SiftStep(s: seq<int>, r: int, n: int, k: int, m: int)
    requires 0 <= r <= k < n <= |s| && HeapBut(s, r, n, k) && Grand(s, r, n, k)
    requires (m == 2 * k + 1 || m == 2 * k + 2) && m < n && s[m] > s[k]
    requires forall c :: 0 <= c < n && (c == 2 * k + 1 || c == 2 * k + 2) ==> s[c] <= s[m]
    ensures HeapBut(s[k := s[m]][m := s[k]], r, n, m) && Grand(s[k := s[m]][m := s[k]], r, n, m)
  {
  }

  /** A node at least its children closes the only possible violation. */
  lemma SiftDone(s: seq<int>, r: int, n: int, k: int)
    requires 0 <= r <= k && HeapBut(s, r, n, k)
    requires forall c :: 0 <= c < n && c < |s| && (c == 2 * k + 1 || c == 2 * k + 2) ==> s[c] <= s[k]
    ensures Heap(s, r, n)
  {
  }

  /** The root of a max-heap is at least every element of it. */
  lemma {:induction false} HeapRootMax(s: seq<int>, n: int, k: int)
    requires Heap(s, 0, n) && 0 <= k < n <= |s|
    ensures s[k] <= s[0]
    decreases k
  {
    if k > 0 {
      var p := (k - 1) / 2;
      assert k == 2 * p + 1 || k == 2 * p + 2;
      HeapRootMax(s, n, p);
    }
  }

  /** The comparisons of heapify: the larger of i and its left child, then
      the larger of that and the right child, children counting only inside
      a[..n]; ties keep the earlier candidate. */
  method PickLargest(a: array<int>, n: int, i: int, anims: seq<HeapAnimation>)
    returns (largest: int, anims': seq<HeapAnimation>)
    requires 0 <= i < n <= a.Length
    ensures largest == i || ((largest == 2 * i + 1 || largest == 2 * i + 2) && largest < n && a[largest] > a[i])
    ensures forall c :: 0 <= c < n && (c == 2 * i + 1 || c == 2 * i + 2) ==> a[c] <= a[largest]
    ensures SortedMarks(anims') == SortedMarks(anims)
  {
    largest := i;
    var left := 2 * i + 1;
    var right := 2 * i + 2;
    anims' := anims;
    if left < n {
      SortedMarksAppend(anims', Compare(largest, left));
      anims' := anims' + [Compare(largest, left)];
      if a[left] > a[largest] {
        largest := left;
      }
    }
    if right < n {
      SortedMarksAppend(anims', Compare(largest, right));
      anims' := anims' + [Compare(largest, right)];
      if a[right] > a[largest] {
        largest := right;
      }
    }
  }

  /** The exchange of heapify: i and its larger child m trade places. */
  method SiftSwap(a: array<int>, n: int, i: int, m: int, ghost r: int)
    requires 0 <= r <= i < n <= a.Length
    requires HeapBut(a[..], r, n, i) && Grand(a[..], r, n, i)
    requires (m == 2 * i + 1 || m == 2 * i + 2) && m < n && a[m] > a[i]
    requires forall c :: 0 <= c < n && (c == 2 * i + 1 || c == 2 * i + 2) ==> a[c] <= a[m]
    modifies a
    ensures HeapBut(a[..], r, n, m) && Grand(a[..], r, n, m)
    ensures multiset(a[..]) == old(multiset(a[..]))
    ensures SameOutside(a[..], old(a[..]), i, n - 1)
  {
    ghost var before := a[..];
    SiftStep(before, r, n, i, m);
    Swap(a, i, m);
    assert a[..] == before[i := before[m]][m := before[i]];
  }

  /** heapify(arr, n, i): the largest of a[i] and its children within a[..n]
      is moved to i and, if that was a child, heapify continues there. Given
      that every other parent from r on is in order (and i's parent bounds
      i's children), a[..n] ends a max-heap below r; only a[i..n) moves. */
  method Heapify(a: array<int>, n: int, i: int, anims: seq<HeapAnimation>, ghost r: int)
    returns (anims': seq<HeapAnimation>)
    requires 0 <= r <= i < n <= a.Length
    requires HeapBut(a[..], r, n, i) && Grand(a[..], r, n, i)
    modifies a
    ensures Heap(a[..], r, n)
    ensures multiset(a[..]) == old(multiset(a[..]))
    ensures SameOutside(a[..], old(a[..]), i, n - 1)
    ensures SortedMarks(anims') == SortedMarks(anims)
    decreases n - i
  {
    var largest;
    largest, anims' := PickLargest(a, n, i, anims);
    if largest != i {
      ghost var before := a[..];
      SiftSwap(a, n, i, largest, r);
      SortedMarksAppend(anims', Exchange(i, largest));
      anims' := anims' + [Exchange(i, largest)];
      ghost var swapped := a[..];
      anims' := Heapify(a, n, largest, anims', r);
      SameOutsideTrans(a[..], swapped, before, largest, n - 1, i, n - 1);
    } else {
      SiftDone(a[..], r, n, i);
    }
  }

  /** The first loop: heapify from floor(n/2) - 1 down to 0 builds a max-heap. */
  method BuildMaxHeap(a: array<int>, anims: seq<HeapAnimation>) returns (anims': seq<HeapAnimation>)
    modifies a
    ensures Heap(a[..], 0, a.Length)
    ensures multiset(a[..]) == old(multiset(a[..]))
    ensures SortedMarks(anims') == SortedMarks(anims)
  {
    var n := a.Length;
    anims' := anims;
    var i := n / 2 - 1;
    while i >= 0
      invariant -1 <= i <= n / 2 - 1
      invariant Heap(a[..], i + 1, n)
      invariant multiset(a[..]) == old(multiset(a[..]))
      invariant SortedMarks(anims') == SortedMarks(anims)
    {
      anims' := Heapify(a, n, i, anims', i);
      i := i - 1;
    }
  }

  // ------------------------------------------------------------ extraction

  /** The state of the second loop at i: a[..i+1] is a max-heap, a[i+1..]
      is sorted and no element of the heap exceeds any element after it. */
  ghost predicate ExtractState(s: seq<int>, i: int) {
    0 <= i < |s| && Heap(s, 0, i + 1) && SortedBetween(s, i + 1, |s|) && Partitioned(s, i + 1)
  }

  /** Exchanging the root with a[i] moves the maximum of the heap to the
      front of the sorted part, and leaves a heap apart from the root. */
  lemma ExtractSwap(s: seq<int>, i: int)
    requires 0 < i && ExtractState(s, i)
    ensures HeapBut(s[0 := s[i]][i := s[0]], 0, i, 0) && Grand(s[0 := s[i]][i := s[0]], 0, i, 0)
    ensures SortedBetween(s[0 := s[i]][i := s[0]], i, |s|) && Partitioned(s[0 := s[i]][i := s[0]], i)
  {
    forall k | 0 <= k <= i {
      HeapRootMax(s, i + 1, k);
    }
  }

  /** Permuting a prefix that is bounded by everything after it keeps it bounded. */
  lemma PartitionedPermuted(s: seq<int>, t: seq<int>, i: int)
    requires 0 <= i <= |s| && Partitioned(s, i)
    requires SameOutside(t, s, 0, i - 1) && multiset(t) == multiset(s)
    ensures Partitioned(t, i)
  {
    PermutationInside(t, s, 0, i);
    forall p | 0 <= p < i
      ensures exists j :: 0 <= j < i && s[j] == t[p]
    {
      assert t[p] == t[0..i][p];
      assert t[p] in multiset(s[0..i]);
      var j :| 0 <= j < i && s[0..i][j] == t[p];
      assert s[j] == t[p];
    }
  }

  /** Heapifying the reduced heap re-establishes the state at i - 1. */
  lemma ExtractHeapified(s: seq<int>, t: seq<int>, i: int)
    requires 0 < i < |s| && SortedBetween(s, i, |s|) && Partitioned(s, i)
    requires Heap(t, 0, i) && SameOutside(t, s, 0, i - 1) && multiset(t) == multiset(s)
    ensures ExtractState(t, i - 1)
  {
    PartitionedPermuted(s, t, i);
  }

  /** The exchange of the second loop: the root trades places with a[i]. */
  method RootToEnd(a: array<int>, i: int)
    requires 0 < i < a.Length && ExtractState(a[..], i)
    modifies a
    ensures HeapBut(a[..], 0, i, 0) && Grand(a[..], 0, i, 0)
    ensures SortedBetween(a[..], i, a.Length) && Partitioned(a[..], i)
    ensures multiset(a[..]) == old(multiset(a[..]))
  {
    ghost var before := a[..];
    ExtractSwap(before, i);
    Swap(a, 0, i);
    assert a[..] == before[0 := before[i]][i := before[0]];
  }

  /** One iteration of the second loop: the root moves to i, which is marked
      sorted, and heapify(arr, i, 0) repairs the heap. */
  method ExtractMax(a: array<int>, i: int, anims: seq<HeapAnimation>) returns (anims': seq<HeapAnimation>)
    requires 0 < i < a.Length && ExtractState(a[..], i)
    modifies a
    ensures ExtractState(a[..], i - 1)
    ensures multiset(a[..]) == old(multiset(a[..]))
    ensures SortedMarks(anims') == SortedMarks(anims) + [i]
  {
    RootToEnd(a, i);
    SortedMarksAppend(anims, Exchange(0, i));
    SortedMarksAppend(anims + [Exchange(0, i)], SortedMark(i));
    anims' := anims + [Exchange(0, i)] + [SortedMark(i)];
    ghost var swapped := a[..];
    anims' := Heapify(a, i, 0, anims', 0);
    ExtractHeapified(swapped, a[..], i);
  }

  /** The indices n - 1, n - 2, ..., n - m. */
  function Countdown(n: int, m: nat): seq<int> {
    seq(m, k => n - 1 - k)
  }

  lemma CountdownNext(n: int, m: nat)
    ensures Countdown(n, m) + [n - 1 - m] == Countdown(n, m + 1)
  {
  }

  lemma ExtractDone(s: seq<int>)
    requires ExtractState(s, 0)
    ensures Sorted(s)
  {
  }

  /** getHeapSortAnimations: builds a max-heap in a copy of the array, then
      repeatedly moves the root behind the heap. The copy ends sorted; each
      index is marked sorted exactly once, from n - 1 down to 0, and an
      empty array still gets the final mark of index 0. */
  method GetHeapSortAnimations(arr: array<int>) returns (sorted: seq<int>, anims: seq<HeapAnimation>)
    ensures Sorted(sorted) && multiset(sorted) == multiset(arr[..])
    ensures SortedMarks(anims) == if arr.Length == 0 then [0] else Countdown(arr.Length, arr.Length)
  {
    var a := Copy(arr);
    var n := a.Length;
    anims := BuildMaxHeap(a, []);
    var i := n - 1;
    while i > 0
      invariant (n == 0 && i == -1) || ExtractState(a[..], i)
      invariant multiset(a[..]) == multiset(arr[..])
      invariant SortedMarks(anims) == Countdown(n, n - 1 - i)
    {
      anims := ExtractMax(a, i, anims);
      CountdownNext(n, n - 1 - i);
      i := i - 1;
    }
    SortedMarksAppend(anims, SortedMark(0));
    if n > 0 {
      CountdownNext(n, n - 1);
      ExtractDone(a[..]);
    }
    anims := anims + [SortedMark(0)];
    sorted := a[..];
  }

  // ------------------------------------------------------------------ tree

  /** A node of the heap tree: its index and value, and whether it is
      highlighted or already sorted. */
  datatype HeapNode = HeapNode(index: int, value: int, highlighted: bool, sorted: bool)

  /** generateHeapTree: one node per cell, then the parent-to-child edges
      (i, 2i+1) and (i, 2i+2) that fall inside the array, in index order. The
      k-th edge therefore leads to cell k + 1 from its parent floor(k/2). */
  method GenerateHeapTree(values: seq<int>, highlight: seq<int>, sortedIndices: set<int>)
    returns (nodes: seq<HeapNode>, edges: seq<(int, int)>)
    ensures |nodes| == |values|
    ensures forall k :: 0 <= k < |nodes| ==> nodes[k] == HeapNode(k, values[k], k in highlight, k in sortedIndices)
    ensures |edges| == if |values| == 0 then 0 else |values| - 1
    ensures forall k :: 0 <= k < |edges| ==> edges[k] == (k / 2, k + 1)
  {
    nodes, edges := [], [];
    if |values| == 0 {
      return;
    }
    var n := |values|;
    var index := 0;
    while index < n
      invariant 0 <= index <= n && |nodes| == index
      invariant forall k :: 0 <= k < index ==> nodes[k] == HeapNode(k, values[k], k in highlight, k in sortedIndices)
    {
      nodes := nodes + [HeapNode(index, values[index], index in highlight, index in sortedIndices)];
      index := index + 1;
    }
    index := 0;
    while index < n
      invariant 0 <= index <= n
      invariant |edges| == Min(2 * index, n - 1)
      invariant forall k :: 0 <= k < |edges| ==> edges[k] == (k / 2, k + 1)
    {
      var leftChild := 2 * index + 1;
      var rightChild := 2 * index + 2;
      if leftChild < n {
        edges := edges + [(index, leftChild)];
      }
      if rightChild < n {
        edges := edges + [(index, rightChild)];
      }
      index := index + 1;
    }
  }
}
