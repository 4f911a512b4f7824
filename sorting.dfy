/** The comparison sorts of the sorting visualizer. Each sort copies the
    caller's array into a fresh working array, rearranges the copy in place
    and logs one numbered step record per comparison and per exchange (or
    shift); each record carries a snapshot of the working array. The
    caller's array is a read-only parameter, so no sort can change it. */
module SortingVisualizer {
  import opened Common

  datatype StepKind = Compare | Exchange

  /** A step record: its number, its kind, the two indices involved, the two
      values shown for them and a copy of the working array at that point. */
  datatype StepRecord = StepRecord(step: nat, kind: StepKind, first: int, second: int,
                                   values: (int, int), snapshot: seq<int>)

  /** Step numbers run 1, 2, 3, ... without gaps. */
  predicate Numbered(records: seq<StepRecord>) {
    forall k :: 0 <= k < |records| ==> records[k].step == k + 1
  }

  /** Every snapshot holds exactly the input's elements. */
  predicate Snapshots(records: seq<StepRecord>, input: seq<int>) {
    forall k :: 0 <= k < |records| ==> multiset(records[k].snapshot) == multiset(input)
  }

  /** Numbered records whose snapshots are permutations of the input. */
  predicate Logged(records: seq<StepRecord>, input: seq<int>) {
    Numbered(records) && Snapshots(records, input)
  }

  /** Every exchange is of two neighbours that were out of order: after the
      exchange the record shows the larger value first. */
  predicate ExchangesFixInversions(records: seq<StepRecord>) {
    forall k :: 0 <= k < |records| && records[k].kind == Exchange ==>
      records[k].second == records[k].first + 1 && records[k].values.0 > records[k].values.1
  }

  lemma LoggedAppend(records: seq<StepRecord>, r: StepRecord, input: seq<int>)
    requires Logged(records, input)
    requires r.step == |records| + 1 && multiset(r.snapshot) == multiset(input)
    ensures Logged(records + [r], input)
  {
  }

  function CountExchanges(records: seq<StepRecord>): nat {
    if records == [] then 0
    else CountExchanges(records[..|records| - 1]) + (if records[|records| - 1].kind == Exchange then 1 else 0)
  }

  lemma CountExchangesAppend(records: seq<StepRecord>, r: StepRecord)
    ensures CountExchanges(records + [r]) == CountExchanges(records) + (if r.kind == Exchange then 1 else 0)
  {
    assert (records + [r])[..|records|] == records;
  }

  // ---------------------------------------------------------------- bubble

  /** One inner step of bubble sort: compare a[j] with a[j+1] and exchange
      them when the left one is larger. */
  method BubbleStep(a: array<int>, j: int, records: seq<StepRecord>, ghost input: seq<int>)
    returns (records': seq<StepRecord>)
    requires 0 <= j < a.Length - 1
    requires multiset(a[..]) == multiset(input)
    requires Logged(records, input) && ExchangesFixInversions(records)
    modifies a
    ensures multiset(a[..]) == multiset(input)
    ensures a[j] <= a[j + 1]
    ensures a[j + 1] == if old(a[j]) > old(a[j + 1]) then old(a[j]) else old(a[j + 1])
    ensures a[j] == if old(a[j]) > old(a[j + 1]) then old(a[j + 1]) else old(a[j])
    ensures forall k :: 0 <= k < a.Length && k != j && k != j + 1 ==> a[k] == old(a[k])
    ensures Logged(records', input) && ExchangesFixInversions(records')
  {
    var r := StepRecord(|records| + 1, Compare, j, j + 1, (a[j], a[j + 1]), a[..]);
    LoggedAppend(records, r, input);
    records' := records + [r];
    if a[j] > a[j + 1] {
      Swap(a, j, j + 1);
      r := StepRecord(|records'| + 1, Exchange, j, j + 1, (a[j + 1], a[j]), a[..]);
      LoggedAppend(records', r, input);
      records' := records' + [r];
    }
  }

  /** One pass of bubble sort's outer loop: the largest element of
      a[..n-i] moves to index n-i-1. */
  method BubblePass(a: array<int>, i: int, records: seq<StepRecord>, ghost input: seq<int>)
    returns (records': seq<StepRecord>)
    requires 0 <= i < a.Length - 1
    requires multiset(a[..]) == multiset(input)
    requires forall p, q :: a.Length - i <= p < q < a.Length ==> a[p] <= a[q]
    requires forall p, q :: 0 <= p < a.Length - i <= q < a.Length ==> a[p] <= a[q]
    requires Logged(records, input) && ExchangesFixInversions(records)
    modifies a
    ensures multiset(a[..]) == multiset(input)
    ensures forall p, q :: a.Length - i - 1 <= p < q < a.Length ==> a[p] <= a[q]
    ensures forall p, q :: 0 <= p < a.Length - i - 1 <= q < a.Length ==> a[p] <= a[q]
    ensures Logged(records', input) && ExchangesFixInversions(records')
  {
    var n := a.Length;
    records' := records;
    var j := 0;
    while j < n - i - 1
      invariant 0 <= j <= n - i - 1
      invariant multiset(a[..]) == multiset(input)
      invariant forall p :: 0 <= p <= j ==> a[p] <= a[j]
      invariant forall p, q :: n - i <= p < q < n ==> a[p] <= a[q]
      invariant forall p, q :: 0 <= p < n - i <= q < n ==> a[p] <= a[q]
      invariant Logged(records', input) && ExchangesFixInversions(records')
    {
      records' := BubbleStep(a, j, records', input);
      j := j + 1;
    }
  }

  method BubbleSort(arr: array<int>) returns (sorted: seq<int>, records: seq<StepRecord>)
    ensures Sorted(sorted) && multiset(sorted) == multiset(arr[..])
    ensures Numbered(records) && Snapshots(records, arr[..]) && ExchangesFixInversions(records)
  {
    var a := Copy(arr);
    var n := a.Length;
    records := [];
    var i := 0;
    while i < n - 1
      invariant 0 <= i <= n
      invariant multiset(a[..]) == multiset(arr[..])
      invariant forall p, q :: n - i <= p < q < n ==> a[p] <= a[q]
      invariant forall p, q :: 0 <= p < n - i <= q < n ==> a[p] <= a[q]
      invariant Logged(records, arr[..]) && ExchangesFixInversions(records)
    {
      records := BubblePass(a, i, records, arr[..]);
      i := i + 1;
    }
    sorted := a[..];
  }

  // ------------------------------------------------------------- selection

  /** Exchanges made by selection sort move a strictly smaller element from a
      later index to an earlier one. */
  predicate ExchangesBringSmaller(records: seq<StepRecord>) {
    forall k :: 0 <= k < |records| && records[k].kind == Exchange ==>
      records[k].first < records[k].second && records[k].values.0 > records[k].values.1
  }

  lemma BringSmallerAppend(records: seq<StepRecord>, r: StepRecord)
    requires ExchangesBringSmaller(records) && r.kind == Exchange && r.first < r.second && r.values.0 > r.values.1
    ensures ExchangesBringSmaller(records + [r])
  {
  }

  /** The scan of selection sort's inner loop: the index of the first
      smallest element of a[i..]; only comparisons are logged. */
  method SelectionScan(a: array<int>, i: int, records: seq<StepRecord>, ghost input: seq<int>)
    returns (minIdx: int, records': seq<StepRecord>)
    requires 0 <= i < a.Length
    requires multiset(a[..]) == multiset(input)
    requires Logged(records, input)
    ensures i <= minIdx < a.Length
    ensures forall q :: i <= q < a.Length ==> a[minIdx] <= a[q]
    ensures forall q :: i <= q < minIdx ==> a[minIdx] < a[q]
    ensures Logged(records', input) && |records| <= |records'| && records'[..|records|] == records
    ensures forall k :: |records| <= k < |records'| ==> records'[k].kind == Compare
  {
    var n := a.Length;
    records' := records;
    minIdx := i;
    var j := i + 1;
    while j < n
      invariant i < j <= n && i <= minIdx < j
      invariant forall q :: i <= q < j ==> a[minIdx] <= a[q]
      invariant forall q :: i <= q < minIdx ==> a[minIdx] < a[q]
      invariant Logged(records', input) && |records| <= |records'| && records'[..|records|] == records
      invariant forall k :: |records| <= k < |records'| ==> records'[k].kind == Compare
    {
      var r := StepRecord(|records'| + 1, Compare, minIdx, j, (a[minIdx], a[j]), a[..]);
      LoggedAppend(records', r, input);
      records' := records' + [r];
      if a[j] < a[minIdx] {
        minIdx := j;
      }
      j := j + 1;
    }
  }

  lemma CountComparesOnly(records: seq<StepRecord>, extra: seq<StepRecord>)
    requires forall k :: 0 <= k < |extra| ==> extra[k].kind == Compare
    ensures CountExchanges(records + extra) == CountExchanges(records)
    ensures ExchangesBringSmaller(records) ==> ExchangesBringSmaller(records + extra)
    decreases |extra|
  {
    if extra == [] {
      assert records + extra == records;
    } else {
      var init, last := extra[..|extra| - 1], extra[|extra| - 1];
      assert records + extra == (records + init) + [last];
      assert last.kind == Compare;
      CountExchangesAppend(records + init, last);
      CountComparesOnly(records, init);
    }
  }

  /** Exchanging a smallest element of s[i..] into place i extends the
      sorted, partitioned prefix by one. */
  lemma SelectionSwap(s: seq<int>, i: int, m: int)
    requires 0 <= i <= m < |s| && SortedBetween(s, 0, i) && Partitioned(s, i)
    requires forall q :: i <= q < |s| ==> s[m] <= s[q]
    ensures var t := s[i := s[m]][m := s[i]];
      SortedBetween(t, 0, i + 1) && Partitioned(t, i + 1) && multiset(t) == multiset(s)
  {
    var t := s[i := s[m]][m := s[i]];
    if m != i {
      MoveIntoHole(s[m := s[i]], i, m, s[i]);
      assert s[m := s[i]][i := s[m]] == t;
      assert s[m := s[i]][m := s[i]] == s[m := s[i]];
    } else {
      assert t == s;
    }
    forall p, q | 0 <= p < i + 1 <= q < |t|
      ensures t[p] <= t[q]
    {
      if p < i {
        assert t[p] == s[p];
      }
    }
  }

  /** One pass of selection sort: the smallest element of a[i..] is found and,
      unless it already is at i, exchanged into place. */
  method SelectionPass(a: array<int>, i: int, records: seq<StepRecord>, ghost input: seq<int>)
    returns (records': seq<StepRecord>)
    requires 0 <= i < a.Length - 1
    requires multiset(a[..]) == multiset(input)
    requires SortedBetween(a[..], 0, i) && Partitioned(a[..], i)
    requires Logged(records, input) && ExchangesBringSmaller(records)
    modifies a
    ensures multiset(a[..]) == multiset(input)
    ensures SortedBetween(a[..], 0, i + 1) && Partitioned(a[..], i + 1)
    ensures Logged(records', input) && ExchangesBringSmaller(records')
    ensures CountExchanges(records') <= CountExchanges(records) + 1
  {
    var minIdx;
    minIdx, records' := SelectionScan(a, i, records, input);
    assert records' == records + records'[|records|..];
    CountComparesOnly(records, records'[|records|..]);
    ghost var before := a[..];
    SelectionSwap(before, i, minIdx);
    if minIdx != i {
      Swap(a, i, minIdx);
      assert a[..] == before[i := before[minIdx]][minIdx := before[i]];
      var r := StepRecord(|records'| + 1, Exchange, i, minIdx, (a[minIdx], a[i]), a[..]);
      CountExchangesAppend(records', r);
      LoggedAppend(records', r, input);
      BringSmallerAppend(records', r);
      records' := records' + [r];
    } else {
      assert before[i := before[minIdx]][minIdx := before[i]] == before;
    }
  }

  method SelectionSort(arr: array<int>) returns (sorted: seq<int>, records: seq<StepRecord>)
    ensures Sorted(sorted) && multiset(sorted) == multiset(arr[..])
    ensures Numbered(records) && Snapshots(records, arr[..]) && ExchangesBringSmaller(records)
    ensures arr.Length == 0 ==> records == []
    ensures arr.Length > 0 ==> CountExchanges(records) <= arr.Length - 1
  {
    var a := Copy(arr);
    var n := a.Length;
    records := [];
    var i := 0;
    while i < n - 1
      invariant 0 <= i <= n && (n > 0 ==> i <= n - 1)
      invariant n == 0 ==> records == []
      invariant multiset(a[..]) == multiset(arr[..])
      invariant SortedBetween(a[..], 0, i) && Partitioned(a[..], i)
      invariant Logged(records, arr[..]) && ExchangesBringSmaller(records)
      invariant CountExchanges(records) <= i
    {
      records := SelectionPass(a, i, records, arr[..]);
      i := i + 1;
    }
    sorted := a[..];
    SortedFromPrefix(sorted, i);
  }

  /** A sorted prefix, all of whose elements are at most each later one,
      followed by at most one element, makes the whole sequence sorted. */
  lemma SortedFromPrefix(s: seq<int>, k: int)
    requires 0 <= k && |s| <= k + 1 && SortedBetween(s, 0, k) && Partitioned(s, k)
    ensures Sorted(s)
  {
  }

  // ------------------------------------------------------------- insertion

  /** The state of a pass of insertion sort while the moving element is at
      j: the cells of s[..i+1] other than j are in order and those right of
      j are at least s[j]. */
  ghost predicate InsertHole(s: seq<int>, i: int, j: int) {
    && 0 <= j <= i < |s|
    && (forall p, q :: 0 <= p < q <= i && p != j && q != j ==> s[p] <= s[q])
    && (forall q :: j < q <= i ==> s[j] <= s[q])
  }

  lemma InsertHoleSwap(s: seq<int>, i: int, j: int)
    requires InsertHole(s, i, j) && j > 0 && s[j - 1] > s[j]
    ensures InsertHole(s[j - 1 := s[j]][j := s[j - 1]], i, j - 1)
  {
  }

  lemma InsertHoleDone(s: seq<int>, i: int, j: int)
    requires InsertHole(s, i, j) && (j > 0 ==> s[j - 1] <= s[j])
    ensures SortedBetween(s, 0, i + 1)
  {
  }

  /** One step of a pass: a[j-1] and a[j] are compared and exchanged when
      the left one is larger. */
  method InsertionStep(a: array<int>, i: int, j: int, records: seq<StepRecord>, ghost input: seq<int>)
    returns (moved: bool, records': seq<StepRecord>)
    requires InsertHole(a[..], i, j) && j > 0
    requires multiset(a[..]) == multiset(input)
    requires Logged(records, input) && ExchangesFixInversions(records)
    modifies a
    ensures multiset(a[..]) == multiset(input)
    ensures moved ==> InsertHole(a[..], i, j - 1)
    ensures !moved ==> SortedBetween(a[..], 0, i + 1)
    ensures Logged(records', input) && ExchangesFixInversions(records')
  {
    var r := StepRecord(|records| + 1, Compare, j - 1, j, (a[j - 1], a[j]), a[..]);
    LoggedAppend(records, r, input);
    records' := records + [r];
    moved := a[j - 1] > a[j];
    if moved {
      records' := InsertionSwap(a, i, j, records', input);
    } else {
      InsertHoleDone(a[..], i, j);
    }
  }

  /** Exchanges a[j-1] and a[j], the left one being larger, and logs it. */
  method InsertionSwap(a: array<int>, i: int, j: int, records: seq<StepRecord>, ghost input: seq<int>)
    returns (records': seq<StepRecord>)
    requires InsertHole(a[..], i, j) && j > 0 && a[j - 1] > a[j]
    requires multiset(a[..]) == multiset(input)
    requires Logged(records, input) && ExchangesFixInversions(records)
    modifies a
    ensures multiset(a[..]) == multiset(input)
    ensures InsertHole(a[..], i, j - 1)
    ensures Logged(records', input) && ExchangesFixInversions(records')
  {
    ghost var before := a[..];
    InsertHoleSwap(before, i, j);
    Swap(a, j - 1, j);
    assert a[..] == before[j - 1 := before[j]][j := before[j - 1]];
    var r := StepRecord(|records| + 1, Exchange, j - 1, j, (a[j], a[j - 1]), a[..]);
    LoggedAppend(records, r, input);
    records' := records + [r];
  }

  /** One pass of insertion sort: a[i] is exchanged leftwards while its left
      neighbour is larger, so that a[..i+1] becomes sorted. */
  method InsertionPass(a: array<int>, i: int, records: seq<StepRecord>, ghost input: seq<int>)
    returns (records': seq<StepRecord>)
    requires 0 < i < a.Length
    requires multiset(a[..]) == multiset(input)
    requires SortedBetween(a[..], 0, i)
    requires Logged(records, input) && ExchangesFixInversions(records)
    modifies a
    ensures multiset(a[..]) == multiset(input)
    ensures SortedBetween(a[..], 0, i + 1)
    ensures Logged(records', input) && ExchangesFixInversions(records')
  {
    records' := records;
    var j := i;
    while j > 0
      invariant InsertHole(a[..], i, j)
      invariant multiset(a[..]) == multiset(input)
      invariant Logged(records', input) && ExchangesFixInversions(records')
    {
      var moved;
      moved, records' := InsertionStep(a, i, j, records', input);
      if !moved {
        return;
      }
      j := j - 1;
    }
    InsertHoleDone(a[..], i, j);
  }

  method InsertionSort(arr: array<int>) returns (sorted: seq<int>, records: seq<StepRecord>)
    ensures Sorted(sorted) && multiset(sorted) == multiset(arr[..])
    ensures Numbered(records) && Snapshots(records, arr[..]) && ExchangesFixInversions(records)
  {
    var a := Copy(arr);
    var n := a.Length;
    records := [];
    var i := 1;
    while i < n
      invariant 1 <= i && (n > 0 ==> i <= n)
      invariant multiset(a[..]) == multiset(arr[..])
      invariant SortedBetween(a[..], 0, i)
      invariant Logged(records, arr[..]) && ExchangesFixInversions(records)
    {
      records := InsertionPass(a, i, records, arr[..]);
      i := i + 1;
    }
    sorted := a[..];
  }

  // ----------------------------------------------------------------- quick

  /** Every element of s is at most b. */
  predicate AllAtMost(s: seq<int>, b: int) {
    forall k :: 0 <= k < |s| ==> s[k] <= b
  }

  /** Every element of s exceeds b. */
  predicate AllAbove(s: seq<int>, b: int) {
    forall k :: 0 <= k < |s| ==> b < s[k]
  }

  lemma BoundsSurvivePermutation(s: seq<int>, t: seq<int>, b: int)
    requires multiset(s) == multiset(t)
    ensures AllAtMost(t, b) ==> AllAtMost(s, b)
    ensures AllAbove(t, b) ==> AllAbove(s, b)
  {
    forall k | 0 <= k < |s| ensures s[k] in t {
      assert s[k] in multiset(s);
    }
  }

  /** The state of the Lomuto partition of s[low..high] around s[high]
      once j cells have been scanned: s[low..i] are at most the pivot and
      s[i+1..j-1] exceed it. */
  ghost predicate Parted(s: seq<int>, low: int, high: int, i: int, j: int, pivot: int) {
    && 0 <= low && low - 1 <= i < j <= high < |s| && s[high] == pivot
    && (forall k :: low <= k <= i ==> s[k] <= pivot)
    && (forall k :: i < k < j ==> pivot < s[k])
  }

  /** One step of the partition loop: a[j] is compared with the pivot and,
      when it is not larger, swapped to the end of the low part. */
  method PartitionStep(a: array<int>, low: int, high: int, i: int, j: int, pivot: int,
                       records: seq<StepRecord>, ghost input: seq<int>)
    returns (i': int, records': seq<StepRecord>)
    requires Parted(a[..], low, high, i, j, pivot) && j < high
    requires multiset(a[..]) == multiset(input) && Logged(records, input)
    modifies a
    ensures Parted(a[..], low, high, i', j + 1, pivot)
    ensures multiset(a[..]) == multiset(input) && Logged(records', input)
    ensures SameOutside(a[..], old(a[..]), low, high)
  {
    var r := StepRecord(|records| + 1, Compare, j, high, (a[j], pivot), a[..]);
    LoggedAppend(records, r, input);
    records' := records + [r];
    i' := i;
    if a[j] <= pivot {
      i' := i + 1;
      if i' != j {
        Swap(a, i', j);
        r := StepRecord(|records'| + 1, Exchange, i', j, (a[j], a[i']), a[..]);
        LoggedAppend(records', r, input);
        records' := records' + [r];
      }
    }
  }

  /** Lomuto partition of a[low..high] around the pivot a[high]. */
  method Partition(a: array<int>, low: int, high: int, records: seq<StepRecord>, ghost input: seq<int>)
    returns (p: int, records': seq<StepRecord>)
    requires 0 <= low < high < a.Length
    requires multiset(a[..]) == multiset(input) && Logged(records, input)
    modifies a
    ensures low <= p <= high
    ensures multiset(a[..]) == multiset(input) && Logged(records', input)
    ensures SameOutside(a[..], old(a[..]), low, high)
    ensures a[p] == old(a[high])
    ensures AllAtMost(a[low..p], a[p]) && AllAbove(a[p + 1..high + 1], a[p])
  {
    var pivot := a[high];
    var i := low - 1;
    var j := low;
    records' := records;
    while j < high
      invariant Parted(a[..], low, high, i, j, pivot)
      invariant SameOutside(a[..], old(a[..]), low, high)
      invariant multiset(a[..]) == multiset(input) && Logged(records', input)
    {
      ghost var before := a[..];
      i, records' := PartitionStep(a, low, high, i, j, pivot, records', input);
      SameOutsideTrans(a[..], before, old(a[..]), low, high, low, high);
      j := j + 1;
    }
    ghost var before := a[..];
    Swap(a, i + 1, high);
    var r := StepRecord(|records'| + 1, Exchange, i + 1, high, (a[high], a[i + 1]), a[..]);
    LoggedAppend(records', r, input);
    records' := records' + [r];
    p := i + 1;
    PivotPlaced(before, a[..], low, high, i, pivot);
  }

  /** Swapping the pivot into place i + 1 finishes the partition. */
  lemma PivotPlaced(s: seq<int>, t: seq<int>, low: int, high: int, i: int, pivot: int)
    requires Parted(s, low, high, i, high, pivot)
    requires |t| == |s| && t[i + 1] == s[high] && t[high] == s[i + 1]
    requires forall k :: 0 <= k < |t| && k != i + 1 && k != high ==> t[k] == s[k]
    ensures AllAtMost(t[low..i + 1], t[i + 1]) && AllAbove(t[i + 2..high + 1], t[i + 1])
    ensures SameOutside(t, s, low, high)
  {
    assert forall k :: low <= k < i + 1 ==> t[low..i + 1][k - low] == t[k];
    assert forall k :: i + 1 < k <= high ==> t[i + 2..high + 1][k - i - 2] == t[k];
  }

  method QuickSortHelper(a: array<int>, low: int, high: int, records: seq<StepRecord>, ghost input: seq<int>)
    returns (records': seq<StepRecord>)
    requires 0 <= low <= high + 1 <= a.Length
    requires multiset(a[..]) == multiset(input) && Logged(records, input)
    modifies a
    ensures multiset(a[..]) == multiset(input) && Logged(records', input)
    ensures SameOutside(a[..], old(a[..]), low, high)
    ensures SortedBetween(a[..], low, high + 1)
    decreases high - low
  {
    records' := records;
    if low < high {
      var p;
      p, records' := Partition(a, low, high, records', input);
      ghost var parted := a[..];
      records' := QuickSortHelper(a, low, p - 1, records', input);
      ghost var middle := a[..];
      records' := QuickSortHelper(a, p + 1, high, records', input);
      QuickLevel(parted, middle, a[..], low, p, high);
      SameOutsideTrans(middle, parted, old(a[..]), low, p - 1, low, high);
      SameOutsideTrans(a[..], middle, old(a[..]), p + 1, high, low, high);
    }
  }

  /** One level of quickSortHelper: after partitioning s0 around s0[p] and
      sorting the two sides in turn (s0 to s1 to s2), s2[low..high] is sorted. */
  lemma QuickLevel(s0: seq<int>, s1: seq<int>, s2: seq<int>, low: int, p: int, high: int)
    requires 0 <= low <= p <= high < |s0|
    requires AllAtMost(s0[low..p], s0[p]) && AllAbove(s0[p + 1..high + 1], s0[p])
    requires multiset(s1) == multiset(s0) && SameOutside(s1, s0, low, p - 1) && SortedBetween(s1, low, p)
    requires multiset(s2) == multiset(s1) && SameOutside(s2, s1, p + 1, high) && SortedBetween(s2, p + 1, high + 1)
    ensures SortedBetween(s2, low, high + 1)
  {
    PermutationInside(s1, s0, low, p);
    BoundsSurvivePermutation(s1[low..p], s0[low..p], s0[p]);
    assert s1[p + 1..high + 1] == s0[p + 1..high + 1];
    PermutationInside(s2, s1, p + 1, high + 1);
    BoundsSurvivePermutation(s2[p + 1..high + 1], s1[p + 1..high + 1], s0[p]);
    assert s2[low..p] == s1[low..p];
    assert s2[p] == s0[p];
    JoinAroundPivot(s2, low, p, high);
  }

  /** Two sorted runs either side of a pivot that bounds them make one sorted run. */
  lemma JoinAroundPivot(s: seq<int>, low: int, p: int, high: int)
    requires 0 <= low <= p <= high < |s|
    requires SortedBetween(s, low, p) && SortedBetween(s, p + 1, high + 1)
    requires AllAtMost(s[low..p], s[p]) && AllAbove(s[p + 1..high + 1], s[p])
    ensures SortedBetween(s, low, high + 1)
  {
    assert forall k :: low <= k < p ==> s[k] == s[low..p][k - low];
    assert forall k :: p < k <= high ==> s[k] == s[p + 1..high + 1][k - p - 1];
  }

  method QuickSort(arr: array<int>) returns (sorted: seq<int>, records: seq<StepRecord>)
    ensures Sorted(sorted) && multiset(sorted) == multiset(arr[..])
    ensures Numbered(records) && Snapshots(records, arr[..])
  {
    var a := Copy(arr);
    records := QuickSortHelper(a, 0, a.Length - 1, [], arr[..]);
    sorted := a[..];
  }

  // ----------------------------------------------------------------- shell

  /** The gaps gap, gap/2, gap/4, ..., 1 (empty when gap is 0). */
  function Halvings(gap: nat): seq<nat>
    decreases gap
  {
    if gap == 0 then [] else [gap] + Halvings(gap / 2)
  }

  /** The gap sequence of shell sort on n elements: n/2, n/4, ..., 1. */
  function ShellGaps(n: nat): seq<nat> {
    Halvings(n / 2)
  }

  lemma {:induction false} HalvingsShape(gap: nat)
    requires gap > 0
    ensures |Halvings(gap)| > 0 && Halvings(gap)[0] == gap
    ensures Halvings(gap)[|Halvings(gap)| - 1] == 1
    ensures forall k, k' :: 0 <= k && k' == k + 1 && k' < |Halvings(gap)| ==> Halvings(gap)[k'] == Halvings(gap)[k] / 2
    decreases gap
  {
    if gap > 1 {
      HalvingsShape(gap / 2);
    }
  }

  /** Every record compares or moves two cells a gap of `gaps` apart. */
  predicate GapsIn(records: seq<StepRecord>, gaps: seq<nat>) {
    forall k :: 0 <= k < |records| ==> records[k].second - records[k].first in gaps
  }

  /** The state of the gapped insertion of temp (taken from s[i]) while the
      hole is at j: the cell at j repeats its right neighbour a gap away,
      which is larger than temp, and the cells up to i are gap-sorted apart
      from the pair ending at i while nothing has moved yet. */
  ghost predicate ShellHole(s: seq<int>, gap: int, i: int, j: int, temp: int) {
    && 1 <= gap <= i < |s| && 0 <= j <= i
    && (j == i ==> s[i] == temp)
    && (j < i ==> j + gap <= i && s[j] == s[j + gap] && temp < s[j + gap])
    && (forall p, q :: 0 <= p && q == p + gap && q <= i && (j == i ==> q != i) ==> s[p] <= s[q])
  }

  /** s[k - gap] <= s[k] for every k below hi: elements gap apart are in order. */
  ghost predicate GapSortedBelow(s: seq<int>, gap: int, hi: int) {
    forall p, q :: 0 <= p < q && q == p + gap && q < hi && q < |s| ==> s[p] <= s[q]
  }

  lemma ShellShiftKeepsHole(s: seq<int>, gap: int, i: int, j: int, temp: int)
    requires ShellHole(s, gap, i, j, temp) && j >= gap && s[j - gap] > temp
    ensures ShellHole(s[j := s[j - gap]], gap, i, j - gap, temp)
  {
  }

  lemma ShellFillKeepsOrder(s: seq<int>, gap: int, i: int, j: int, temp: int)
    requires ShellHole(s, gap, i, j, temp) && (j >= gap ==> s[j - gap] <= temp)
    ensures GapSortedBelow(s[j := temp], gap, i + 1)
  {
  }

  lemma GapLogAppend(records: seq<StepRecord>, r: StepRecord, gaps: seq<nat>)
    requires Numbered(records) && GapsIn(records, gaps)
    requires r.step == |records| + 1 && r.second - r.first in gaps
    ensures Numbered(records + [r]) && GapsIn(records + [r], gaps)
  {
  }

  /** Shifts a[j - gap], which exceeds temp, into the hole at j. */
  method ShellMove(a: array<int>, gap: int, i: int, j: int, temp: int, records: seq<StepRecord>, ghost gaps: seq<nat>)
    returns (records': seq<StepRecord>)
    requires ShellHole(a[..], gap, i, j, temp) && j >= gap && gap in gaps && a[j - gap] > temp
    requires Numbered(records) && GapsIn(records, gaps)
    modifies a
    ensures Numbered(records') && GapsIn(records', gaps)
    ensures ShellHole(a[..], gap, i, j - gap, temp)
    ensures multiset(a[..][j - gap := temp]) == multiset(old(a[..])[j := temp])
  {
    ghost var before := a[..];
    MoveIntoHole(before, j, j - gap, temp);
    ShellShiftKeepsHole(before, gap, i, j, temp);
    a[j] := a[j - gap];
    assert a[..] == before[j := before[j - gap]];
    var r := StepRecord(|records| + 1, Exchange, j - gap, j, (a[j - gap], temp), a[..]);
    GapLogAppend(records, r, gaps);
    records' := records + [r];
  }

  /** One step of the gapped insertion while the hole is at j >= gap: the
      comparison of a[j - gap] with temp is recorded and, when a[j - gap]
      is larger, it is shifted into the hole, which moves gap places left. */
  method ShellShift(a: array<int>, gap: int, i: int, j: int, temp: int, records: seq<StepRecord>, ghost gaps: seq<nat>)
    returns (moved: bool, records': seq<StepRecord>)
    requires ShellHole(a[..], gap, i, j, temp) && j >= gap && gap in gaps
    requires Numbered(records) && GapsIn(records, gaps)
    modifies a
    ensures Numbered(records') && GapsIn(records', gaps)
    ensures moved ==> ShellHole(a[..], gap, i, j - gap, temp)
    ensures moved ==> multiset(a[..][j - gap := temp]) == multiset(old(a[..])[j := temp])
    ensures !moved ==> a[..] == old(a[..]) && a[j - gap] <= temp
  {
    var r := StepRecord(|records| + 1, Compare, j - gap, j, (a[j - gap], a[j]), a[..]);
    GapLogAppend(records, r, gaps);
    records' := records + [r];
    moved := a[j - gap] > temp;
    if moved {
      records' := ShellMove(a, gap, i, j, temp, records', gaps);
    }
  }

  /** Gapped insertion of a[i] into the gap-sorted a[..i]: larger elements
      `gap` places to the left are shifted right until temp fits. */
  method ShellInsert(a: array<int>, gap: int, i: int, records: seq<StepRecord>, ghost gaps: seq<nat>)
    returns (records': seq<StepRecord>)
    requires 1 <= gap <= i < a.Length && gap in gaps
    requires GapSortedBelow(a[..], gap, i)
    requires Numbered(records) && GapsIn(records, gaps)
    modifies a
    ensures multiset(a[..]) == old(multiset(a[..]))
    ensures GapSortedBelow(a[..], gap, i + 1)
    ensures Numbered(records') && GapsIn(records', gaps)
  {
    var temp := a[i];
    var j := i;
    records' := records;
    assert a[..][i := temp] == a[..];
    while j >= gap
      invariant ShellHole(a[..], gap, i, j, temp)
      invariant multiset(a[..][j := temp]) == old(multiset(a[..]))
      invariant Numbered(records') && GapsIn(records', gaps)
      decreases j
    {
      var moved;
      moved, records' := ShellShift(a, gap, i, j, temp, records', gaps);
      if !moved {
        break;
      }
      j := j - gap;
    }
    ghost var before := a[..];
    ShellFillKeepsOrder(before, gap, i, j, temp);
    a[j] := temp;
    assert a[..] == before[j := temp];
  }

  /** One pass of shell sort with a fixed gap: afterwards the whole array is
      gap-sorted. */
  method ShellPass(a: array<int>, gap: int, records: seq<StepRecord>, ghost gaps: seq<nat>)
    returns (records': seq<StepRecord>)
    requires 1 <= gap && gap in gaps
    requires Numbered(records) && GapsIn(records, gaps)
    modifies a
    ensures multiset(a[..]) == old(multiset(a[..]))
    ensures GapSortedBelow(a[..], gap, a.Length)
    ensures Numbered(records') && GapsIn(records', gaps)
  {
    records' := records;
    var i := gap;
    while i < a.Length
      invariant gap <= i && (gap <= a.Length ==> i <= a.Length)
      invariant multiset(a[..]) == old(multiset(a[..]))
      invariant GapSortedBelow(a[..], gap, i)
      invariant Numbered(records') && GapsIn(records', gaps)
    {
      records' := ShellInsert(a, gap, i, records', gaps);
      i := i + 1;
    }
  }

  method ShellSort(arr: array<int>) returns (sorted: seq<int>, records: seq<StepRecord>)
    ensures Sorted(sorted) && multiset(sorted) == multiset(arr[..])
    ensures Numbered(records) && GapsIn(records, ShellGaps(arr.Length))
  {
    var a := Copy(arr);
    var n := a.Length;
    records := [];
    var gap := n / 2;
    while gap > 0
      invariant 0 <= gap
      invariant multiset(a[..]) == multiset(arr[..])
      invariant forall x :: x in Halvings(gap as nat) ==> x in ShellGaps(n)
      invariant gap == 0 ==> GapSortedBelow(a[..], 1, n)
      invariant Numbered(records) && GapsIn(records, ShellGaps(n))
    {
      assert gap in Halvings(gap);
      records := ShellPass(a, gap, records, ShellGaps(n));
      gap := gap / 2;
    }
    sorted := a[..];
    AdjacentSortedIsSorted(sorted);
  }

  // ------------------------------------------------------------------ tim

  /** The run length of tim sort: runs of this many elements are sorted by
      insertion and then merged pairwise. */
  const MinMerge := 32

  /** s[lo..hi) split into consecutive chunks of m elements from lo on (the
      last one may be shorter), each of them sorted. */
  ghost predicate ChunksSorted(s: seq<int>, lo: int, hi: int, m: nat)
    requires m > 0
    decreases hi - lo
  {
    if hi - lo <= m then SortedBetween(s, lo, hi)
    else SortedBetween(s, lo, lo + m) && ChunksSorted(s, lo + m, hi, m)
  }

  /** n is a multiple of m, stated without multiplication. */
  predicate Multiple(n: int, m: nat)
    requires m > 0
    decreases n
  {
    n == 0 || (n >= m && Multiple(n - m, m))
  }

  lemma MultipleNext(n: int, m: nat)
    requires m > 0 && Multiple(n, m)
    ensures Multiple(n + m, m)
  {
  }

  /** A sorted chunk of at most m elements that starts on a chunk boundary
      extends the chunks before it. */
  lemma {:induction false} ChunksExtend(s: seq<int>, lo: int, start: int, hi: int, m: nat)
    requires m > 0 && lo <= start <= hi && hi - start <= m && Multiple(start - lo, m)
    requires ChunksSorted(s, lo, start, m) && SortedBetween(s, start, hi)
    ensures ChunksSorted(s, lo, hi, m)
    decreases start - lo
  {
    if lo < start {
      assert start - lo >= m && Multiple(start - (lo + m), m);
      if lo + m < start {
        ChunksExtend(s, lo + m, start, hi, m);
      }
    }
  }

  /** The chunks of s[lo..hi) depend on those cells only. */
  lemma {:induction false} ChunksFrame(s: seq<int>, t: seq<int>, lo: int, hi: int, m: nat)
    requires m > 0 && 0 <= lo && hi <= |s| == |t|
    requires forall k :: lo <= k < hi ==> s[k] == t[k]
    requires ChunksSorted(s, lo, hi, m)
    ensures ChunksSorted(t, lo, hi, m)
    decreases hi - lo
  {
    if hi - lo > m {
      ChunksFrame(s, t, lo + m, hi, m);
    }
  }

  lemma TimLogAppend(records: seq<StepRecord>, r: StepRecord)
    requires Numbered(records) && r.step == |records| + 1
    ensures Numbered(records + [r])
  {
  }

  /** The state of insertion of key (taken from s[i]) into the sorted
      s[left..i] while the hole is at j + 1: the cells of s[left..i+1]
      other than the hole are in order and those right of it exceed key. */
  ghost predicate TimHole(s: seq<int>, left: int, i: int, j: int, key: int) {
    && 0 <= left < i < |s| && left - 1 <= j < i
    && (forall p, q :: left <= p < q <= i && p != j + 1 && q != j + 1 ==> s[p] <= s[q])
    && (forall q :: j + 1 < q <= i ==> key < s[q])
  }

  lemma TimShiftKeepsHole(s: seq<int>, left: int, i: int, j: int, key: int)
    requires TimHole(s, left, i, j, key) && left <= j && s[j] > key
    ensures TimHole(s[j + 1 := s[j]], left, i, j - 1, key)
  {
  }

  lemma TimFillSorts(s: seq<int>, left: int, i: int, j: int, key: int)
    requires TimHole(s, left, i, j, key) && (left <= j ==> s[j] <= key)
    ensures SortedBetween(s[j + 1 := key], left, i + 1)
  {
  }

  /** Shifts a[j], which exceeds key, into the hole at j + 1. */
  method TimShift(a: array<int>, left: int, i: int, j: int, key: int, records: seq<StepRecord>)
    returns (records': seq<StepRecord>)
    requires TimHole(a[..], left, i, j, key) && left <= j && a[j] > key
    requires Numbered(records)
    modifies a
    ensures TimHole(a[..], left, i, j - 1, key)
    ensures multiset(a[..][j := key]) == old(multiset(a[..][j + 1 := key]))
    ensures a[..] == old(a[..][j + 1 := a[j]])
    ensures Numbered(records')
  {
    MoveIntoHole(a[..], j + 1, j, key);
    TimShiftKeepsHole(a[..], left, i, j, key);
    a[j + 1] := a[j];
    var r := StepRecord(|records| + 1, Exchange, j, j + 1, (a[j], key), a[..]);
    TimLogAppend(records, r);
    records' := records + [r];
  }

  /** One step of the insertion sort of a run: key = a[i] is inserted into
      the sorted a[left..i] by shifting larger elements one place right. */
  method TimInsertOne(a: array<int>, left: int, i: int, records: seq<StepRecord>)
    returns (records': seq<StepRecord>)
    requires 0 <= left < i < a.Length
    requires SortedBetween(a[..], left, i)
    requires Numbered(records)
    modifies a
    ensures multiset(a[..]) == old(multiset(a[..]))
    ensures SortedBetween(a[..], left, i + 1)
    ensures SameOutside(a[..], old(a[..]), left, i)
    ensures Numbered(records')
  {
    var key := a[i];
    var j := i - 1;
    records' := records;
    assert a[..][i := key] == a[..];
    while j >= left
      invariant TimHole(a[..], left, i, j, key)
      invariant multiset(a[..][j + 1 := key]) == old(multiset(a[..]))
      invariant SameOutside(a[..], old(a[..]), left, i)
      invariant Numbered(records')
    {
      var r := StepRecord(|records'| + 1, Compare, j, j + 1, (a[j], key), a[..]);
      TimLogAppend(records', r);
      records' := records' + [r];
      if a[j] > key {
        SameOutsideUpdate(a[..], old(a[..]), left, i, j + 1, a[j]);
        records' := TimShift(a, left, i, j, key, records');
        j := j - 1;
      } else {
        break;
      }
    }
    TimFillSorts(a[..], left, i, j, key);
    SameOutsideUpdate(a[..], old(a[..]), left, i, j + 1, key);
    a[j + 1] := key;
  }

  /** insertionSortHelper(left, right): sorts a[left..right] in place. */
  method TimInsertionRun(a: array<int>, left: int, right: int, records: seq<StepRecord>)
    returns (records': seq<StepRecord>)
    requires 0 <= left <= right < a.Length
    requires Numbered(records)
    modifies a
    ensures multiset(a[..]) == old(multiset(a[..]))
    ensures SortedBetween(a[..], left, right + 1)
    ensures SameOutside(a[..], old(a[..]), left, right)
    ensures Numbered(records')
  {
    records' := records;
    var i := left + 1;
    while i <= right
      invariant left < i <= right + 1
      invariant multiset(a[..]) == old(multiset(a[..]))
      invariant SortedBetween(a[..], left, i)
      invariant SameOutside(a[..], old(a[..]), left, right)
      invariant Numbered(records')
    {
      records' := TimInsertOne(a, left, i, records');
      i := i + 1;
    }
  }

  /** One iteration of the main loop of merge: the smaller head (the left
      one on a tie) is written to a[left + i + j]. */
  method TimMergeTake(a: array<int>, left: int, mid: int, right: int, leftArr: seq<int>, rightArr: seq<int>,
                      ghost m: seq<int>, i: int, j: int, records: seq<StepRecord>)
    returns (i': int, j': int, records': seq<StepRecord>)
    requires 0 <= left <= mid < right < a.Length
    requires |leftArr| == mid + 1 - left && |rightArr| == right - mid
    requires MergeState(a[..], left, leftArr, rightArr, m, i, j) && i < |leftArr| && j < |rightArr|
    requires Numbered(records)
    modifies a
    ensures MergeState(a[..], left, leftArr, rightArr, m, i', j')
    ensures (i', j') == (if leftArr[i] <= rightArr[j] then (i + 1, j) else (i, j + 1))
    ensures a[..] == old(a[..])[left + i + j := m[i + j]]
    ensures Numbered(records')
  {
    var k := left + i + j;
    var r := StepRecord(|records| + 1, Compare, left + i, mid + 1 + j, (leftArr[i], rightArr[j]), a[..]);
    TimLogAppend(records, r);
    records' := records + [r];
    if leftArr[i] <= rightArr[j] {
      MergeStateLeft(a[..], left, leftArr, rightArr, m, i, j);
      MergeTakeLeft(leftArr, rightArr, i, j, m);
      a[k] := leftArr[i];
      i', j' := i + 1, j;
    } else {
      MergeStateRight(a[..], left, leftArr, rightArr, m, i, j);
      MergeTakeRight(leftArr, rightArr, i, j, m);
      a[k] := rightArr[j];
      r := StepRecord(|records'| + 1, Exchange, k, mid + 1 + j, (a[k], rightArr[j]), a[..]);
      TimLogAppend(records', r);
      records' := records' + [r];
      i', j' := i, j + 1;
    }
  }

  /** The main loop of merge: runs while both copies have elements left. */
  method TimMergeMain(a: array<int>, left: int, mid: int, right: int, leftArr: seq<int>, rightArr: seq<int>,
                      ghost m: seq<int>, records: seq<StepRecord>)
    returns (i: int, j: int, records': seq<StepRecord>)
    requires 0 <= left <= mid < right < a.Length
    requires |leftArr| == mid + 1 - left && |rightArr| == right - mid
    requires MergeState(a[..], left, leftArr, rightArr, m, 0, 0)
    requires Numbered(records)
    modifies a
    ensures MergeState(a[..], left, leftArr, rightArr, m, i, j)
    ensures i == |leftArr| || j == |rightArr|
    ensures SameOutside(a[..], old(a[..]), left, right)
    ensures Numbered(records')
  {
    records' := records;
    i, j := 0, 0;
    while i < |leftArr| && j < |rightArr|
      invariant MergeState(a[..], left, leftArr, rightArr, m, i, j)
      invariant SameOutside(a[..], old(a[..]), left, right)
      invariant Numbered(records')
      decreases |leftArr| + |rightArr| - i - j
    {
      SameOutsideUpdate(a[..], old(a[..]), left, right, left + i + j, m[i + j]);
      i, j, records' := TimMergeTake(a, left, mid, right, leftArr, rightArr, m, i, j, records');
    }
  }

  /** The first trailing loop of merge: the rest of the left copy. */
  method TimMergeLeftRest(a: array<int>, left: int, right: int, leftArr: seq<int>, rightArr: seq<int>,
                          ghost m: seq<int>, i0: int, j: int)
    requires 0 <= left <= right < a.Length && |leftArr| + |rightArr| == right + 1 - left
    requires MergeState(a[..], left, leftArr, rightArr, m, i0, j)
    requires i0 == |leftArr| || j == |rightArr|
    modifies a
    ensures MergeState(a[..], left, leftArr, rightArr, m, |leftArr|, j)
    ensures SameOutside(a[..], old(a[..]), left, right)
  {
    var i := i0;
    while i < |leftArr|
      invariant i <= |leftArr| && (i < |leftArr| ==> j == |rightArr|)
      invariant MergeState(a[..], left, leftArr, rightArr, m, i, j)
      invariant SameOutside(a[..], old(a[..]), left, right)
    {
      SameOutsideUpdate(a[..], old(a[..]), left, right, left + i + j, leftArr[i]);
      MergeStateLeft(a[..], left, leftArr, rightArr, m, i, j);
      a[left + i + j] := leftArr[i];
      i := i + 1;
    }
  }

  /** The second trailing loop of merge: the rest of the right copy. */
  method TimMergeRightRest(a: array<int>, left: int, right: int, leftArr: seq<int>, rightArr: seq<int>,
                           ghost m: seq<int>, j0: int)
    requires 0 <= left <= right < a.Length && |leftArr| + |rightArr| == right + 1 - left
    requires MergeState(a[..], left, leftArr, rightArr, m, |leftArr|, j0)
    modifies a
    ensures a[left..right + 1] == m
    ensures SameOutside(a[..], old(a[..]), left, right)
  {
    var i, j := |leftArr|, j0;
    while j < |rightArr|
      invariant MergeState(a[..], left, leftArr, rightArr, m, i, j)
      invariant SameOutside(a[..], old(a[..]), left, right)
    {
      SameOutsideUpdate(a[..], old(a[..]), left, right, left + i + j, rightArr[j]);
      MergeStateRight(a[..], left, leftArr, rightArr, m, i, j);
      a[left + i + j] := rightArr[j];
      j := j + 1;
    }
    PlacedAll(a[..], left, m);
  }

  /** merge(left, mid, right): a[left..mid] and a[mid+1..right] are copied out
      and merged back into a[left..right]. A comparison is logged for each
      step of the main loop and an exchange whenever the right element is
      taken; the copying of the leftovers is not logged. */
  method TimMerge(a: array<int>, left: int, mid: int, right: int, records: seq<StepRecord>)
    returns (records': seq<StepRecord>)
    requires 0 <= left <= mid < right < a.Length
    requires Numbered(records)
    modifies a
    ensures a[left..right + 1] == Merge(old(a[left..mid + 1]), old(a[mid + 1..right + 1]))
    ensures SameOutside(a[..], old(a[..]), left, right)
    ensures Numbered(records')
  {
    var leftArr := a[left..mid + 1];
    var rightArr := a[mid + 1..right + 1];
    ghost var m := Merge(leftArr, rightArr);
    MergeIsPermutation(leftArr, rightArr);
    assert leftArr[0..] == leftArr && rightArr[0..] == rightArr;
    var i, j;
    i, j, records' := TimMergeMain(a, left, mid, right, leftArr, rightArr, m, records);
    ghost var afterMain := a[..];
    TimMergeLeftRest(a, left, right, leftArr, rightArr, m, i, j);
    ghost var afterLeft := a[..];
    SameOutsideTrans(afterLeft, afterMain, old(a[..]), left, right, left, right);
    TimMergeRightRest(a, left, right, leftArr, rightArr, m, j);
    SameOutsideTrans(a[..], afterLeft, old(a[..]), left, right, left, right);
  }

  lemma SortedBetweenSlice(s: seq<int>, lo: int, hi: int)
    requires 0 <= lo <= hi <= |s| && SortedBetween(s, lo, hi)
    ensures Sorted(s[lo..hi])
  {
  }

  lemma SliceSortedBetween(s: seq<int>, lo: int, hi: int)
    requires 0 <= lo <= hi <= |s| && Sorted(s[lo..hi])
    ensures SortedBetween(s, lo, hi)
  {
    assert forall p :: lo <= p < hi ==> s[p] == s[lo..hi][p - lo];
  }

  /** After insertion-sorting the run t[start..hi], t[..hi+1] consists of
      sorted runs of m elements. */
  lemma RunStep(s: seq<int>, t: seq<int>, start: int, hi: int, m: nat)
    requires m > 0 && 0 <= start <= hi < |s| && hi + 1 - start <= m && Multiple(start, m)
    requires ChunksSorted(s, 0, start, m)
    requires SameOutside(t, s, start, hi) && SortedBetween(t, start, hi + 1)
    ensures ChunksSorted(t, 0, hi + 1, m)
  {
    ChunksFrame(s, t, 0, start, m);
    assert start - 0 == start;
    ChunksExtend(t, 0, start, hi + 1, m);
  }

  /** The first loop of tim sort: each run a[i..min(i+31, n-1)], i a multiple
      of 32, is sorted by insertion. */
  method TimRuns(a: array<int>, records: seq<StepRecord>) returns (records': seq<StepRecord>)
    requires Numbered(records)
    modifies a
    ensures multiset(a[..]) == old(multiset(a[..]))
    ensures ChunksSorted(a[..], 0, a.Length, MinMerge)
    ensures Numbered(records')
  {
    var n := a.Length;
    records' := records;
    var i := 0;
    while i < n
      invariant 0 <= i && Multiple(i, MinMerge)
      invariant multiset(a[..]) == old(multiset(a[..]))
      invariant ChunksSorted(a[..], 0, Min(i, n), MinMerge)
      invariant Numbered(records')
    {
      var right := Min(i + MinMerge - 1, n - 1);
      ghost var before := a[..];
      records' := TimInsertionRun(a, i, right, records');
      RunStep(before, a[..], i, right, MinMerge);
      MultipleNext(i, MinMerge);
      i := i + MinMerge;
    }
  }

  /** The merge of the neighbouring sorted runs s[lo..mid] and s[mid..hi]
      is a sorted permutation of s[lo..hi]. */
  lemma MergeOfRuns(s: seq<int>, t: seq<int>, lo: int, mid: int, hi: int)
    requires 0 <= lo <= mid <= hi <= |s| && hi <= |t|
    requires Sorted(s[lo..mid]) && Sorted(s[mid..hi])
    requires t[lo..hi] == Merge(s[lo..mid], s[mid..hi])
    ensures Sorted(t[lo..hi]) && multiset(t[lo..hi]) == multiset(s[lo..hi])
  {
    MergeIsPermutation(s[lo..mid], s[mid..hi]);
    MergeSorted(s[lo..mid], s[mid..hi]);
    MultisetSlices(s, lo, mid, hi);
  }

  /** MergeOfRuns stated on the cells of s and t. */
  lemma MergeOfRunsBetween(s: seq<int>, t: seq<int>, lo: int, mid: int, hi: int)
    requires 0 <= lo <= mid <= hi <= |s| && hi <= |t|
    requires SortedBetween(s, lo, mid) && SortedBetween(s, mid, hi)
    requires t[lo..hi] == Merge(s[lo..mid], s[mid..hi])
    ensures SortedBetween(t, lo, hi) && multiset(t[lo..hi]) == multiset(s[lo..hi])
  {
    SortedBetweenSlice(s, lo, mid);
    SortedBetweenSlice(s, mid, hi);
    MergeOfRuns(s, t, lo, mid, hi);
    SliceSortedBetween(t, lo, hi);
  }

  /** Two runs of size elements (the second possibly shorter) at start,
      followed by runs of size elements. */
  lemma PairOfRuns(s: seq<int>, start: int, size: nat, end: int)
    requires size > 0 && 0 <= start && start + size < |s| && end == Min(start + 2 * size - 1, |s| - 1)
    requires ChunksSorted(s, start, |s|, size)
    ensures SortedBetween(s, start, start + size) && SortedBetween(s, start + size, end + 1)
    ensures end + 1 < |s| ==> ChunksSorted(s, end + 1, |s|, size)
  {
    assert ChunksSorted(s, start + size, |s|, size);
    if |s| - (start + size) <= size {
      assert end + 1 == |s|;
    } else {
      assert end + 1 == start + size + size;
    }
  }

  /** The shape of the array during the merging of size: up to start it
      consists of sorted runs of 2 * size elements, from start on of sorted
      runs of size elements. */
  ghost predicate PassShape(s: seq<int>, start: int, size: nat)
    requires size > 0
  {
    0 <= start && ChunksSorted(s, 0, Min(start, |s|), 2 * size) && (start < |s| ==> ChunksSorted(s, start, |s|, size))
  }

  /** Merging the pair of runs at start (over s[start..end]) into t moves the
      boundary of the shape on by 2 * size. */
  lemma MergeStepShape(s: seq<int>, t: seq<int>, start: int, size: nat, end: int)
    requires size > 0 && Multiple(start, 2 * size) && start < |s| == |t| && start + size - 1 < end
    requires end == Min(start + 2 * size - 1, |s| - 1)
    requires PassShape(s, start, size)
    requires SortedBetween(t, start, end + 1) && multiset(t[start..end + 1]) == multiset(s[start..end + 1])
    requires SameOutside(t, s, start, end)
    ensures multiset(t) == multiset(s) && PassShape(t, start + 2 * size, size)
  {
    PairOfRuns(s, start, size, end);
    PermutationOutside(t, s, start, end);
    MergeStepPrefix(s, t, start, size, end);
    if end + 1 < |t| {
      ChunksAbove(s, t, start, end, size);
    }
  }

  /** t agrees with s outside [lo, hi] and is a permutation of it there. */
  lemma PermutationOutside(t: seq<int>, s: seq<int>, lo: int, hi: int)
    requires 0 <= lo <= hi < |s| && SameOutside(t, s, lo, hi)
    requires multiset(t[lo..hi + 1]) == multiset(s[lo..hi + 1])
    ensures multiset(t) == multiset(s)
  {
    PermutationOfSegment(t, s, lo, hi + 1);
  }

  /** The merged pair of runs completes the prefix of runs of 2 * size. */
  lemma MergeStepPrefix(s: seq<int>, t: seq<int>, start: int, size: nat, end: int)
    requires size > 0 && Multiple(start, 2 * size) && start <= end < |s| && end + 1 - start <= 2 * size
    requires ChunksSorted(s, 0, start, 2 * size) && SortedBetween(t, start, end + 1)
    requires SameOutside(t, s, start, end)
    ensures ChunksSorted(t, 0, end + 1, 2 * size)
  {
    ChunksFrame(s, t, 0, start, 2 * size);
    assert start - 0 == start;
    ChunksExtend(t, 0, start, end + 1, 2 * size);
  }

  /** The runs above a rewritten segment are untouched. */
  lemma ChunksAbove(s: seq<int>, t: seq<int>, lo: int, hi: int, m: nat)
    requires m > 0 && 0 <= lo <= hi < |s| && SameOutside(t, s, lo, hi)
    requires ChunksSorted(s, hi + 1, |s|, m)
    ensures ChunksSorted(t, hi + 1, |t|, m)
  {
    ChunksFrame(s, t, hi + 1, |s|, m);
  }

  /** A run with no partner ends the merging of size. */
  lemma LastStepShape(s: seq<int>, start: int, size: nat)
    requires size > 0 && Multiple(start, 2 * size) && start < |s| && |s| - 1 <= start + size - 1
    requires PassShape(s, start, size)
    ensures PassShape(s, start + 2 * size, size)
  {
    assert start - 0 == start;
    ChunksExtend(s, 0, start, |s|, 2 * size);
  }

  /** Merging two neighbouring sorted runs leaves a sorted permutation of them. */
  method TimMergeRuns(a: array<int>, left: int, mid: int, right: int, records: seq<StepRecord>)
    returns (records': seq<StepRecord>)
    requires 0 <= left <= mid < right < a.Length
    requires SortedBetween(a[..], left, mid + 1) && SortedBetween(a[..], mid + 1, right + 1)
    requires Numbered(records)
    modifies a
    ensures SortedBetween(a[..], left, right + 1)
    ensures multiset(a[left..right + 1]) == old(multiset(a[left..right + 1]))
    ensures SameOutside(a[..], old(a[..]), left, right)
    ensures Numbered(records')
  {
    ghost var before := a[..];
    records' := TimMerge(a, left, mid, right, records);
    MergeOfRunsBetween(before, a[..], left, mid + 1, right + 1);
  }

  /** One iteration of the inner loop of tim sort's merging: the run at
      start is merged with the run after it, if there is one. */
  method TimMergeStep(a: array<int>, start: int, size: int, records: seq<StepRecord>)
    returns (records': seq<StepRecord>)
    requires size > 0 && 0 <= start < a.Length && Multiple(start, 2 * size)
    requires PassShape(a[..], start, size)
    requires Numbered(records)
    modifies a
    ensures multiset(a[..]) == old(multiset(a[..]))
    ensures PassShape(a[..], start + 2 * size, size)
    ensures Numbered(records')
  {
    var n := a.Length;
    var mid := start + size - 1;
    var end := Min(start + size * 2 - 1, n - 1);
    if mid < end {
      ghost var before := a[..];
      PairOfRuns(before, start, size, end);
      records' := TimMergeRuns(a, start, mid, end, records);
      MergeStepShape(before, a[..], start, size, end);
    } else {
      records' := records;
      LastStepShape(a[..], start, size);
    }
  }

  /** The merging of one size: runs of size elements at 0, 2*size, 4*size, ...
      are merged with the runs that follow them. */
  method TimMergePass(a: array<int>, size: int, records: seq<StepRecord>) returns (records': seq<StepRecord>)
    requires size > 0 && ChunksSorted(a[..], 0, a.Length, size)
    requires Numbered(records)
    modifies a
    ensures multiset(a[..]) == old(multiset(a[..]))
    ensures ChunksSorted(a[..], 0, a.Length, 2 * size)
    ensures Numbered(records')
  {
    var n := a.Length;
    records' := records;
    var start := 0;
    while start < n
      invariant Multiple(start, 2 * size)
      invariant multiset(a[..]) == old(multiset(a[..]))
      invariant PassShape(a[..], start, size)
      invariant Numbered(records')
    {
      records' := TimMergeStep(a, start, size, records');
      MultipleNext(start, 2 * size);
      start := start + size * 2;
    }
  }

  method TimSort(arr: array<int>) returns (sorted: seq<int>, records: seq<StepRecord>)
    ensures Sorted(sorted) && multiset(sorted) == multiset(arr[..])
    ensures Numbered(records)
  {
    var a := Copy(arr);
    var n := a.Length;
    records := TimRuns(a, []);
    var size := MinMerge;
    while size < n
      invariant size > 0
      invariant multiset(a[..]) == multiset(arr[..])
      invariant ChunksSorted(a[..], 0, n, size)
      invariant Numbered(records)
      decreases n - size
    {
      records := TimMergePass(a, size, records);
      size := size * 2;
    }
    sorted := a[..];
  }
}
