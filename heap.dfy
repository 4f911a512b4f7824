/** The heap data structure visualizer: a min-heap or max-heap kept in array
    layout, with insertion, extraction of the root, deletion of a value and a
    heap built by repeated insertion. */
module HeapDataStructure {
  import opened Common

  datatype HeapType = MinHeap | MaxHeap

  /** parent(i) = floor((i - 1) / 2); Dafny's division by 2 already rounds
      down, so the root's "parent" is -1 exactly as in the source. */
  function Parent(i: int): (r: int)
    ensures i > 0 ==> 0 <= r < i && (i == LeftChild(r) || i == RightChild(r))
    ensures i == 0 ==> r == -1
  {
    (i - 1) / 2
  }

  function LeftChild(i: int): int {
    2 * i + 1
  }

  function RightChild(i: int): int {
    2 * i + 2
  }

  /** compare(a, b): a must sit above b, strictly: a < b in a min-heap and
      a > b in a max-heap. */
  function Compare(x: int, y: int, t: HeapType): bool {
    if t == MinHeap then x < y else x > y
  }

  /** compare is a strict order that is total on distinct values. */
  lemma CompareStrictOrder(x: int, y: int, z: int, t: HeapType)
    ensures !Compare(x, x, t)
    ensures Compare(x, y, t) ==> !Compare(y, x, t)
    ensures Compare(x, y, t) && Compare(y, z, t) ==> Compare(x, z, t)
    ensures x != y ==> Compare(x, y, t) || Compare(y, x, t)
  {
  }

  // ------------------------------------------------------------ heap order

  /** No child beats its parent. */
  ghost predicate HeapOrdered(s: seq<int>, t: HeapType) {
    forall p, c :: 0 <= p && 0 <= c < |s| && (c == 2 * p + 1 || c == 2 * p + 2) ==> !Compare(s[c], s[p], t)
  }

  /** No child other than k beats its parent. */
  ghost predicate OrderedExceptChild(s: seq<int>, k: int, t: HeapType) {
    forall p, c :: 0 <= p && 0 <= c < |s| && c != k && (c == 2 * p + 1 || c == 2 * p + 2) ==> !Compare(s[c], s[p], t)
  }

  /** No child beats its parent, unless that parent is k. */
  ghost predicate OrderedExceptParent(s: seq<int>, k: int, t: HeapType) {
    forall p, c :: 0 <= p && p != k && 0 <= c < |s| && (c == 2 * p + 1 || c == 2 * p + 2) ==> !Compare(s[c], s[p], t)
  }

  /** No child of k beats k's parent. */
  ghost predicate GrandAbove(s: seq<int>, k: int, t: HeapType) {
    forall p, c :: 0 <= p && (k == 2 * p + 1 || k == 2 * p + 2) && 0 <= c < |s| && (c == 2 * k + 1 || c == 2 * k + 2) ==> !Compare(s[c], s[p], t)
  }

  /** The root of an ordered heap sits above every element. */
  lemma {:induction false} RootIsBest(s: seq<int>, t: HeapType, k: int)
    requires HeapOrdered(s, t) && 0 <= k < |s|
    ensures !Compare(s[k], s[0], t)
    decreases k
  {
    if k > 0 {
      var p := Parent(k);
      RootIsBest(s, t, p);
    }
  }

  // ------------------------------------------------------------ heapify up

  /** Exchanging k with the parent it beats moves the only violation up. */
  lemma UpStep(s: seq<int>, k: int, t: HeapType)
    requires 0 < k < |s| && Compare(s[k], s[Parent(k)], t)
    requires OrderedExceptChild(s, k, t) && GrandAbove(s, k, t)
    ensures OrderedExceptChild(s[k := s[Parent(k)]][Parent(k) := s[k]], Parent(k), t)
    ensures GrandAbove(s[k := s[Parent(k)]][Parent(k) := s[k]], Parent(k), t)
  {
  }

  /** A node that does not beat its parent closes the only violation. */
  lemma UpDone(s: seq<int>, k: int, t: HeapType)
    requires 0 <= k < |s| && OrderedExceptChild(s, k, t)
    requires k > 0 ==> !Compare(s[k], s[Parent(k)], t)
    ensures HeapOrdered(s, t)
  {
  }

  method UpSwap(a: array<int>, k: int, t: HeapType, ghost ordered: bool)
    requires 0 < k < a.Length && Compare(a[k], a[Parent(k)], t)
    requires ordered ==> OrderedExceptChild(a[..], k, t) && GrandAbove(a[..], k, t)
    modifies a
    ensures multiset(a[..]) == old(multiset(a[..]))
    ensures ordered ==> OrderedExceptChild(a[..], Parent(k), t) && GrandAbove(a[..], Parent(k), t)
  {
    ghost var before := a[..];
    var p := Parent(k);
    if ordered {
      UpStep(before, k, t);
    }
    Swap(a, k, p);
    assert a[..] == before[k := before[p]][p := before[k]];
  }

  /** heapifyUp(arr, index): while the value beats its parent it is exchanged
      with it. The multiset never changes, and a heap whose only violation is
      at index (as after appending) ends ordered. */
  method HeapifyUp(a: array<int>, index: int, t: HeapType)
    requires 0 <= index < a.Length
    modifies a
    ensures multiset(a[..]) == old(multiset(a[..]))
    ensures old(OrderedExceptChild(a[..], index, t) && GrandAbove(a[..], index, t)) ==> HeapOrdered(a[..], t)
  {
    ghost var ordered := OrderedExceptChild(a[..], index, t) && GrandAbove(a[..], index, t);
    var current := index;
    while current > 0
      invariant 0 <= current <= index
      invariant multiset(a[..]) == old(multiset(a[..]))
      invariant ordered ==> OrderedExceptChild(a[..], current, t) && GrandAbove(a[..], current, t)
    {
      var parentIndex := Parent(current);
      if Compare(a[current], a[parentIndex], t) {
        UpSwap(a, current, t, ordered);
        current := parentIndex;
      } else {
        if ordered {
          UpDone(a[..], current, t);
        }
        break;
      }
    }
    if ordered && current == 0 {
      UpDone(a[..], 0, t);
    }
  }

  // ---------------------------------------------------------- heapify down

  /** The comparisons of heapifyDown: the best of k and its children inside
      the array, the left child first, ties keeping the earlier candidate. */
  method PickTarget(a: array<int>, k: int, t: HeapType) returns (target: int)
    requires 0 <= k < a.Length
    ensures target == k || ((target == 2 * k + 1 || target == 2 * k + 2) && target < a.Length && Compare(a[target], a[k], t))
    ensures forall c :: 0 <= c < a.Length && (c == 2 * k + 1 || c == 2 * k + 2) ==> !Compare(a[c], a[target], t)
  {
    var left := LeftChild(k);
    var right := RightChild(k);
    target := k;
    if left < a.Length {
      if Compare(a[left], a[target], t) {
        target := left;
      }
    }
    if right < a.Length {
      if Compare(a[right], a[target], t) {
        target := right;
      }
    }
  }

  /** Exchanging k with its best child m, which beats k, moves the only
      violation down to m. */
  lemma DownStep(s: seq<int>, k: int, m: int, t: HeapType)
    requires 0 <= k < m < |s| && (m == 2 * k + 1 || m == 2 * k + 2) && Compare(s[m], s[k], t)
    requires forall c :: 0 <= c < |s| && (c == 2 * k + 1 || c == 2 * k + 2) ==> !Compare(s[c], s[m], t)
    requires OrderedExceptParent(s, k, t) && GrandAbove(s, k, t)
    ensures OrderedExceptParent(s[k := s[m]][m := s[k]], m, t) && GrandAbove(s[k := s[m]][m := s[k]], m, t)
  {
  }

  method DownSwap(a: array<int>, k: int, m: int, t: HeapType, ghost ordered: bool)
    requires 0 <= k < m < a.Length && (m == 2 * k + 1 || m == 2 * k + 2) && Compare(a[m], a[k], t)
    requires forall c :: 0 <= c < a.Length && (c == 2 * k + 1 || c == 2 * k + 2) ==> !Compare(a[c], a[m], t)
    requires ordered ==> OrderedExceptParent(a[..], k, t) && GrandAbove(a[..], k, t)
    modifies a
    ensures multiset(a[..]) == old(multiset(a[..]))
    ensures ordered ==> OrderedExceptParent(a[..], m, t) && GrandAbove(a[..], m, t)
  {
    ghost var before := a[..];
    if ordered {
      DownStep(before, k, m, t);
    }
    Swap(a, k, m);
    assert a[..] == before[k := before[m]][m := before[k]];
  }

  /** heapifyDown(arr, index): while a child beats the value, it is
      exchanged with the best child. The multiset never changes, and a heap
      whose only violation is below index ends ordered. */
  method HeapifyDown(a: array<int>, index: int, t: HeapType)
    requires 0 <= index < a.Length
    modifies a
    ensures multiset(a[..]) == old(multiset(a[..]))
    ensures old(OrderedExceptParent(a[..], index, t) && GrandAbove(a[..], index, t)) ==> HeapOrdered(a[..], t)
  {
    ghost var ordered := OrderedExceptParent(a[..], index, t) && GrandAbove(a[..], index, t);
    var current := index;
    while true
      invariant 0 <= current < a.Length
      invariant multiset(a[..]) == old(multiset(a[..]))
      invariant ordered ==> OrderedExceptParent(a[..], current, t) && GrandAbove(a[..], current, t)
      decreases a.Length - current
    {
      var target := PickTarget(a, current, t);
      if target == current {
        break;
      }
      DownSwap(a, current, target, t, ordered);
      current := target;
    }
  }

  // ------------------------------------------------- the edits, as values

  /** Appending to an ordered heap leaves only the new element out of place. */
  lemma AppendShape(s: seq<int>, v: int, t: HeapType)
    requires HeapOrdered(s, t)
    ensures OrderedExceptChild(s + [v], |s|, t) && GrandAbove(s + [v], |s|, t)
  {
  }

  /** s with cell i replaced by the last element, and the last cell removed. */
  function ReplaceByLast(s: seq<int>, i: int): (r: seq<int>)
    requires 0 <= i < |s|
    ensures |r| == |s| - 1
    ensures i < |s| - 1 ==> multiset(r) == multiset(s) - multiset{s[i]}
  {
    var r := s[i := s[|s| - 1]][..|s| - 1];
    if i < |s| - 1 then
      assert s == s[..i] + [s[i]] + s[i + 1..|s| - 1] + [s[|s| - 1]];
      assert r == s[..i] + [s[|s| - 1]] + s[i + 1..|s| - 1];
      r
    else r
  }

  /** After the replacement, the new value either beats its parent, and
      only it is out of place below that parent, or it does not, and only
      its children may be out of place. */
  lemma ReplaceShape(s: seq<int>, i: int, t: HeapType)
    requires HeapOrdered(s, t) && 0 <= i < |s| - 1
    ensures GrandAbove(ReplaceByLast(s, i), i, t)
    ensures i > 0 && Compare(ReplaceByLast(s, i)[i], ReplaceByLast(s, i)[Parent(i)], t) ==>
              OrderedExceptChild(ReplaceByLast(s, i), i, t)
    ensures !(i > 0 && Compare(ReplaceByLast(s, i)[i], ReplaceByLast(s, i)[Parent(i)], t)) ==>
              OrderedExceptParent(ReplaceByLast(s, i), i, t)
  {
  }

  /** The general case of deleteValue on the copy: cell i takes the last
      element, which moves up if it beats its parent and down otherwise. */
  method ReplaceAndRepair(s: seq<int>, i: int, t: HeapType) returns (r: seq<int>)
    requires 0 <= i < |s| - 1
    ensures |r| == |s| - 1 && multiset(r) == multiset(s) - multiset{s[i]}
    ensures HeapOrdered(s, t) ==> HeapOrdered(r, t)
  {
    if HeapOrdered(s, t) {
      ReplaceShape(s, i, t);
    }
    var a := FromSeq(ReplaceByLast(s, i));
    var parentIndex := Parent(i);
    if i > 0 && Compare(a[i], a[parentIndex], t) {
      HeapifyUp(a, i, t);
    } else {
      HeapifyDown(a, i, t);
    }
    r := a[..];
  }

  // --------------------------------------------------------- the component

  /** The visualizer's state: the heap array and whether it is a min-heap
      or a max-heap. Every change is applied to a copy that becomes the new
      heap when its animation ends. */
  class HeapVisualizer {
    var heap: seq<int>
    var heapType: HeapType

    constructor ()
      ensures heap == [] && heapType == MinHeap
    {
      heap := [];
      heapType := MinHeap;
    }

    /** The heap-type selector changes the order only; the array is kept. */
    method SetHeapType(t: HeapType)
      modifies this
      ensures heapType == t && heap == old(heap)
    {
      heapType := t;
    }

    /** insertValue: the value is appended and moved up. */
    method Insert(value: int)
      modifies this
      ensures heapType == old(heapType)
      ensures |heap| == old(|heap|) + 1 && multiset(heap) == old(multiset(heap)) + multiset{value}
      ensures old(HeapOrdered(heap, heapType)) ==> HeapOrdered(heap, heapType)
    {
      if HeapOrdered(heap, heapType) {
        AppendShape(heap, value, heapType);
      }
      var a := FromSeq(heap + [value]);
      HeapifyUp(a, |heap|, heapType);
      heap := a[..];
    }

    /** extractRoot: an empty heap is left alone; a single element is
      removed; otherwise the last element replaces the root and moves down.
      The root removed is the best element of an ordered heap. */
    method ExtractRoot() returns (root: Option<int>)
      modifies this
      ensures heapType == old(heapType)
      ensures old(heap) == [] ==> root == None && heap == []
      ensures old(heap) != [] ==>
                root == Some(old(heap)[0]) && |heap| == old(|heap|) - 1 &&
                multiset(heap) == old(multiset(heap)) - multiset{old(heap)[0]}
      ensures old(HeapOrdered(heap, heapType)) ==> HeapOrdered(heap, heapType)
    {
      if |heap| == 0 {
        return None;
      }
      root := Some(heap[0]);
      if |heap| == 1 {
        heap := [];
        return;
      }
      if HeapOrdered(heap, heapType) {
        ReplaceShape(heap, 0, heapType);
      }
      var a := FromSeq(ReplaceByLast(heap, 0));
      HeapifyDown(a, 0, heapType);
      heap := a[..];
    }

    /** deleteValue: the first occurrence is found with indexOf; a missing
      value leaves the heap alone, the last cell is simply removed, and any
      other cell takes the last element, which then moves up if it beats its
      parent and down otherwise. */
    method Delete(value: int) returns (found: bool)
      modifies this
      ensures heapType == old(heapType)
      ensures found <==> value in old(heap)
      ensures !found ==> heap == old(heap)
      ensures found ==> |heap| == old(|heap|) - 1 && multiset(heap) == old(multiset(heap)) - multiset{value}
      ensures old(HeapOrdered(heap, heapType)) ==> HeapOrdered(heap, heapType)
    {
      var index := IndexOf(heap, value);
      if index == -1 {
        return false;
      }
      found := true;
      if index == |heap| - 1 {
        assert heap == heap[..index] + [value];
        heap := heap[..index];
        return;
      }
      heap := ReplaceAndRepair(heap, index, heapType);
    }

    /** findValueInHeap: the index shown is indexOf's. */
    function Find(value: int): (index: int)
      reads this
      ensures index == -1 <==> value !in heap
      ensures 0 <= index ==> index < |heap| && heap[index] == value && value !in heap[..index]
    {
      IndexOf(heap, value)
    }

    /** insertValue as the button runs it: the box's text is read with
        parseInt, and text that is not a number leaves the heap alone. */
    method InsertText(inputValue: string)
      modifies this
      ensures heapType == old(heapType)
      ensures ParseDecimal(inputValue).None? ==> heap == old(heap)
      ensures ParseDecimal(inputValue).Some? ==>
                |heap| == old(|heap|) + 1 && multiset(heap) == old(multiset(heap)) + multiset{ParseDecimal(inputValue).value}
      ensures old(HeapOrdered(heap, heapType)) ==> HeapOrdered(heap, heapType)
    {
      var value := ParseDecimal(inputValue);
      if value.None? {
        return;
      }
      Insert(value.value);
    }

    /** deleteValue as the button runs it: text that is not a number
        leaves the heap alone and finds nothing. */
    method DeleteText(findValue: string) returns (found: bool)
      modifies this
      ensures heapType == old(heapType)
      ensures found <==> ParseDecimal(findValue).Some? && ParseDecimal(findValue).value in old(heap)
      ensures !found ==> heap == old(heap)
      ensures found ==> |heap| == old(|heap|) - 1 && multiset(heap) == old(multiset(heap)) - multiset{ParseDecimal(findValue).value}
      ensures old(HeapOrdered(heap, heapType)) ==> HeapOrdered(heap, heapType)
    {
      var value := ParseDecimal(findValue);
      if value.None? {
        return false;
      }
      found := Delete(value.value);
    }

    /** findValueInHeap as the button runs it: None for text that is not a
        number, otherwise the index Find shows. */
    function FindText(findValue: string): (r: Option<int>)
      reads this
      ensures r.None? <==> ParseDecimal(findValue).None?
      ensures r.Some? ==> (r.value == -1 <==> ParseDecimal(findValue).value !in heap)
      ensures r.Some? && 0 <= r.value ==> r.value < |heap| && heap[r.value] == ParseDecimal(findValue).value
      ensures r.Some? && 0 <= r.value ==> ParseDecimal(findValue).value !in heap[..r.value]
    {
      match ParseDecimal(findValue)
      case None => None
      case Some(v) => Some(Find(v))
    }

    method Clear()
      modifies this
      ensures heap == [] && heapType == old(heapType)
    {
      heap := [];
    }

    /** generateRandomHeap, given its values: each is pushed and moved up. */
    method BuildFrom(values: seq<int>)
      modifies this
      ensures heapType == old(heapType)
      ensures HeapOrdered(heap, heapType) && multiset(heap) == multiset(values)
    {
      heap := [];
      var k := 0;
      while k < |values|
        invariant 0 <= k <= |values| && heapType == old(heapType)
        invariant HeapOrdered(heap, heapType) && multiset(heap) == multiset(values[..k])
      {
        Insert(values[k]);
        assert values[..k + 1] == values[..k] + [values[k]];
        k := k + 1;
      }
      assert values[..k] == values;
    }
  }
}
