/** The merge sort visualizer: top-down merge sort that alternates between
    the array being sorted and an auxiliary copy of it, the animations it
    emits, and the tree-building steps shown beside it. */
module MergeSortVisualizer {
  import opened Common

  // ------------------------------------------------------- reference sort

  /** Length of the left half when s[start..end] is split at
      floor((start + end) / 2): the middle index belongs to the left half. */
  function LeftHalf(n: nat): nat
    requires n >= 2
  {
    (n - 1) / 2 + 1
  }

  /** Top-down merge sort on values, split exactly as the visualizer splits. */
  function MergeSortSpec(s: seq<int>): seq<int>
    decreases |s|
  {
    if |s| <= 1 then s
    else Merge(MergeSortSpec(s[..LeftHalf(|s|)]), MergeSortSpec(s[LeftHalf(|s|)..]))
  }

  lemma {:induction false} MergeSortSpecPermutes(s: seq<int>)
    ensures multiset(MergeSortSpec(s)) == multiset(s) && |MergeSortSpec(s)| == |s|
    decreases |s|
  {
    if |s| > 1 {
      var h := LeftHalf(|s|);
      MergeSortSpecPermutes(s[..h]);
      MergeSortSpecPermutes(s[h..]);
      MergeIsPermutation(MergeSortSpec(s[..h]), MergeSortSpec(s[h..]));
      MultisetSplit(s, h);
    }
  }

  lemma {:induction false} MergeSortSpecSorted(s: seq<int>)
    ensures Sorted(MergeSortSpec(s))
    decreases |s|
  {
    if |s| > 1 {
      var h := LeftHalf(|s|);
      MergeSortSpecSorted(s[..h]);
      MergeSortSpecSorted(s[h..]);
      MergeSorted(MergeSortSpec(s[..h]), MergeSortSpec(s[h..]));
    }
  }

  // ------------------------------------------------------------ animations

  datatype MergeAnimation =
    | Divide(start: int, end: int, middle: int)
    | MergePhase(start: int, middle: int, end: int)
    | CompareAt(left: int, right: int, leftValue: int, rightValue: int)
    | Place(target: int, source: int, value: int)
    | Complete(indices: seq<int>)

  function CountPlaces(anims: seq<MergeAnimation>): nat {
    if anims == [] then 0
    else CountPlaces(anims[..|anims| - 1]) + (if anims[|anims| - 1].Place? then 1 else 0)
  }

  lemma CountPlacesAppend(anims: seq<MergeAnimation>, a: MergeAnimation)
    ensures CountPlaces(anims + [a]) == CountPlaces(anims) + (if a.Place? then 1 else 0)
  {
    assert (anims + [a])[..|anims|] == anims;
  }

  /** A comparison followed by a placement adds one placement. */
  lemma CountPlacesPair(anims: seq<MergeAnimation>, c: MergeAnimation, p: MergeAnimation)
    requires c.CompareAt? && p.Place?
    ensures CountPlaces(anims + [c, p]) == CountPlaces(anims) + 1
  {
    CountPlacesAppend(anims, c);
    CountPlacesAppend(anims + [c], p);
    assert anims + [c] + [p] == anims + [c, p];
  }

  /** s and t agree outside the cells lo..hi, stated on slices so that
      it carries no quantifier. */
  ghost predicate Untouched(s: seq<int>, t: seq<int>, lo: int, hi: int) {
    |s| == |t| && 0 <= lo <= hi + 1 <= |s| && s[..lo] == t[..lo] && s[hi + 1..] == t[hi + 1..]
  }

  lemma SameOutsideUntouched(s: seq<int>, t: seq<int>, lo: int, hi: int)
    requires SameOutside(s, t, lo, hi) && 0 <= lo <= hi + 1 <= |s|
    ensures Untouched(s, t, lo, hi)
  {
  }

  lemma UntouchedTrans(s: seq<int>, t: seq<int>, u: seq<int>, lo: int, hi: int, lo': int, hi': int)
    requires Untouched(s, t, lo, hi) && Untouched(t, u, lo', hi') && lo' <= lo && hi <= hi'
    ensures Untouched(s, u, lo', hi')
  {
    assert s[..lo'] == s[..lo][..lo'] && t[..lo'] == t[..lo][..lo'];
    assert s[hi' + 1..] == s[hi + 1..][hi' - hi..] && t[hi' + 1..] == t[hi + 1..][hi' - hi..];
  }

  /** Sequences that agree outside lo..hi agree on any slice clear of it. */
  lemma SliceClear(s: seq<int>, t: seq<int>, lo: int, hi: int, a: int, b: int)
    requires Untouched(s, t, lo, hi) && 0 <= a <= b <= |s| && (b <= lo || hi < a)
    ensures s[a..b] == t[a..b]
  {
    forall k | a <= k < b
      ensures s[k] == t[k]
    {
      if b <= lo {
        assert s[k] == s[..lo][k] && t[k] == t[..lo][k];
      } else {
        assert s[k] == s[hi + 1..][k - hi - 1] && t[k] == t[hi + 1..][k - hi - 1];
      }
    }
  }

  // ----------------------------------------------------------------- merge

  /** The state of doMerge once aux[start..i-1] and aux[middle+1..j-1]
      have been placed: main[start..k-1], k = i + j - middle - 1, holds the
      first k - start elements of m, the merge of the two halves of
      aux[start..end]. */
  ghost predicate MergeAt(s: seq<int>, t: seq<int>, start: int, middle: int, end: int, m: seq<int>, i: int, j: int) {
    && 0 <= start <= i <= middle + 1 <= j <= end + 1 <= |t|
    && MergeState(s, start, t[start..middle + 1], t[middle + 1..end + 1], m, i - start, j - middle - 1)
  }

  lemma MergeAtLeft(s: seq<int>, t: seq<int>, start: int, middle: int, end: int, m: seq<int>, i: int, j: int)
    requires MergeAt(s, t, start, middle, end, m, i, j) && i <= middle && (j > end || t[i] <= t[j])
    requires i + j - middle - 1 < |s|
    ensures MergeAt(s[i + j - middle - 1 := t[i]], t, start, middle, end, m, i + 1, j)
  {
    MergeStateLeft(s, start, t[start..middle + 1], t[middle + 1..end + 1], m, i - start, j - middle - 1);
  }

  lemma MergeAtRight(s: seq<int>, t: seq<int>, start: int, middle: int, end: int, m: seq<int>, i: int, j: int)
    requires MergeAt(s, t, start, middle, end, m, i, j) && j <= end && (i > middle || t[i] > t[j])
    requires i + j - middle - 1 < |s|
    ensures MergeAt(s[i + j - middle - 1 := t[j]], t, start, middle, end, m, i, j + 1)
  {
    MergeStateRight(s, start, t[start..middle + 1], t[middle + 1..end + 1], m, i - start, j - middle - 1);
  }

  /** Before anything is placed, the merge state holds for the merge of the
      two halves of t[start..end]. */
  lemma MergeAtStart(s: seq<int>, t: seq<int>, start: int, middle: int, end: int)
    requires 0 <= start <= middle < end < |s| == |t|
    ensures MergeAt(s, t, start, middle, end, Merge(t[start..middle + 1], t[middle + 1..end + 1]), start, middle + 1)
  {
    var l, r := t[start..middle + 1], t[middle + 1..end + 1];
    MergeIsPermutation(l, r);
    assert l[0..] == l && r[0..] == r;
  }

  /** One iteration of the main loop of doMerge: the heads aux[i] and aux[j]
      are compared and the smaller one (aux[i] on a tie) is placed. */
  method DoMergeTake(main: array<int>, start: int, middle: int, end: int, aux: array<int>,
                     ghost m: seq<int>, i: int, j: int, anims: seq<MergeAnimation>)
    returns (i': int, j': int, anims': seq<MergeAnimation>)
    requires main != aux && main.Length == aux.Length && 0 <= start <= middle < end < main.Length
    requires MergeAt(main[..], aux[..], start, middle, end, m, i, j) && i <= middle && j <= end
    modifies main
    ensures (i', j') == (if aux[i] <= aux[j] then (i + 1, j) else (i, j + 1))
    ensures MergeAt(main[..], aux[..], start, middle, end, m, i', j')
    ensures SameOutside(main[..], old(main[..]), start, end)
    ensures CountPlaces(anims') == CountPlaces(anims) + 1
  {
    var k := i + j - middle - 1;
    var compare := CompareAt(i, j, aux[i], aux[j]);
    ghost var before := main[..];
    if aux[i] <= aux[j] {
      MergeAtLeft(before, aux[..], start, middle, end, m, i, j);
      main[k] := aux[i];
      assert main[..] == before[k := aux[i]];
      CountPlacesPair(anims, compare, Place(k, i, aux[i]));
      anims' := anims + [compare, Place(k, i, aux[i])];
      i', j' := i + 1, j;
    } else {
      MergeAtRight(before, aux[..], start, middle, end, m, i, j);
      main[k] := aux[j];
      assert main[..] == before[k := aux[j]];
      CountPlacesPair(anims, compare, Place(k, j, aux[j]));
      anims' := anims + [compare, Place(k, j, aux[j])];
      i', j' := i, j + 1;
    }
  }

  /** The main loop of doMerge: while both halves of aux[start..end] have
      elements left, the smaller head (the left one on a tie) is placed. */
  method DoMergeMain(main: array<int>, start: int, middle: int, end: int, aux: array<int>,
                     ghost m: seq<int>, anims: seq<MergeAnimation>)
    returns (i: int, j: int, anims': seq<MergeAnimation>)
    requires main != aux && main.Length == aux.Length && 0 <= start <= middle < end < main.Length
    requires MergeAt(main[..], aux[..], start, middle, end, m, start, middle + 1)
    modifies main
    ensures i == middle + 1 || j == end + 1
    ensures MergeAt(main[..], aux[..], start, middle, end, m, i, j)
    ensures SameOutside(main[..], old(main[..]), start, end)
    ensures CountPlaces(anims') == CountPlaces(anims) + (i - start) + (j - middle - 1)
  {
    anims' := anims;
    i, j := start, middle + 1;
    while i <= middle && j <= end
      invariant MergeAt(main[..], aux[..], start, middle, end, m, i, j)
      invariant SameOutside(main[..], old(main[..]), start, end)
      invariant CountPlaces(anims') == CountPlaces(anims) + (i - start) + (j - middle - 1)
      decreases end + middle - i - j
    {
      ghost var before := main[..];
      i, j, anims' := DoMergeTake(main, start, middle, end, aux, m, i, j, anims');
      SameOutsideTrans(main[..], before, old(main[..]), start, end, start, end);
    }
  }

  /** The first trailing loop of doMerge: once the right half is used up,
      the rest of the left half is placed in order. */
  method DoMergeLeftRest(main: array<int>, start: int, middle: int, end: int, aux: array<int>,
                         ghost m: seq<int>, i0: int, anims: seq<MergeAnimation>)
    returns (anims': seq<MergeAnimation>)
    requires main != aux && main.Length == aux.Length && 0 <= start <= middle < end < main.Length
    requires MergeAt(main[..], aux[..], start, middle, end, m, i0, end + 1)
    modifies main
    ensures MergeAt(main[..], aux[..], start, middle, end, m, middle + 1, end + 1)
    ensures Untouched(main[..], old(main[..]), start, end)
    ensures CountPlaces(anims') == CountPlaces(anims) + (middle + 1 - i0)
  {
    anims' := anims;
    var i, k := i0, i0 + end - middle;
    while i <= middle
      invariant i0 <= i <= middle + 1 && k == i + end - middle
      invariant MergeAt(main[..], aux[..], start, middle, end, m, i, end + 1)
      invariant SameOutside(main[..], old(main[..]), start, end)
      invariant CountPlaces(anims') == CountPlaces(anims) + (i - i0)
    {
      ghost var before := main[..];
      MergeAtLeft(before, aux[..], start, middle, end, m, i, end + 1);
      SameOutsideUpdate(before, old(main[..]), start, end, k, aux[i]);
      main[k] := aux[i];
      assert main[..] == before[k := aux[i]];
      CountPlacesAppend(anims', Place(k, i, aux[i]));
      anims' := anims' + [Place(k, i, aux[i])];
      i, k := i + 1, k + 1;
    }
    SameOutsideUntouched(main[..], old(main[..]), start, end);
  }

  /** The second trailing loop of doMerge: once the left half is used up,
      the rest of the right half is placed in order. */
  method DoMergeRightRest(main: array<int>, start: int, middle: int, end: int, aux: array<int>,
                          ghost m: seq<int>, j0: int, anims: seq<MergeAnimation>)
    returns (anims': seq<MergeAnimation>)
    requires main != aux && main.Length == aux.Length && 0 <= start <= middle < end < main.Length
    requires MergeAt(main[..], aux[..], start, middle, end, m, middle + 1, j0)
    modifies main
    ensures main[start..end + 1] == m
    ensures Untouched(main[..], old(main[..]), start, end)
    ensures CountPlaces(anims') == CountPlaces(anims) + (end + 1 - j0)
  {
    anims' := anims;
    var j, k := j0, j0;
    while j <= end
      invariant j0 <= j <= end + 1 && k == j
      invariant MergeAt(main[..], aux[..], start, middle, end, m, middle + 1, j)
      invariant SameOutside(main[..], old(main[..]), start, end)
      invariant CountPlaces(anims') == CountPlaces(anims) + (j - j0)
    {
      ghost var before := main[..];
      MergeAtRight(before, aux[..], start, middle, end, m, middle + 1, j);
      SameOutsideUpdate(before, old(main[..]), start, end, k, aux[j]);
      main[k] := aux[j];
      assert main[..] == before[k := aux[j]];
      CountPlacesAppend(anims', Place(k, j, aux[j]));
      anims' := anims' + [Place(k, j, aux[j])];
      j, k := j + 1, k + 1;
    }
    PlacedAll(main[..], start, m);
    SameOutsideUntouched(main[..], old(main[..]), start, end);
  }

  /** doMerge: the sorted halves aux[start..middle] and aux[middle+1..end]
      are merged into main[start..end], taking the left element on a tie;
      one 'place' animation is emitted per element of the range. */
  method DoMerge(main: array<int>, start: int, middle: int, end: int, aux: array<int>,
                 anims: seq<MergeAnimation>)
    returns (anims': seq<MergeAnimation>)
    requires main != aux && main.Length == aux.Length && 0 <= start <= middle < end < main.Length
    modifies main
    ensures main[start..end + 1] == Merge(aux[start..middle + 1], aux[middle + 1..end + 1])
    ensures Untouched(main[..], old(main[..]), start, end)
    ensures CountPlaces(anims') == CountPlaces(anims) + (end - start + 1)
  {
    ghost var m := Merge(aux[start..middle + 1], aux[middle + 1..end + 1]);
    MergeAtStart(main[..], aux[..], start, middle, end);
    anims' := anims + [MergePhase(start, middle, end)];
    CountPlacesAppend(anims, MergePhase(start, middle, end));
    var i, j;
    i, j, anims' := DoMergeMain(main, start, middle, end, aux, m, anims');
    ghost var afterMain := main[..];
    SameOutsideUntouched(afterMain, old(main[..]), start, end);
    if i <= middle {
      anims' := DoMergeLeftRest(main, start, middle, end, aux, m, i, anims');
      UntouchedTrans(main[..], afterMain, old(main[..]), start, end, start, end);
    }
    ghost var afterLeft := main[..];
    anims' := DoMergeRightRest(main, start, middle, end, aux, m, j, anims');
    UntouchedTrans(main[..], afterLeft, old(main[..]), start, end, start, end);
  }

  // ------------------------------------------------------------- the sort

  /** The merge sort of t[start..end] is the merge of the sorts of its two
      halves, split at floor((start + end) / 2). */
  lemma SpecSplit(t: seq<int>, start: int, middle: int, end: int)
    requires 0 <= start <= middle < end < |t| && middle == (start + end) / 2
    ensures MergeSortSpec(t[start..end + 1])
         == Merge(MergeSortSpec(t[start..middle + 1]), MergeSortSpec(t[middle + 1..end + 1]))
  {
    var s := t[start..end + 1];
    assert LeftHalf(|s|) == middle + 1 - start;
    assert s[..middle + 1 - start] == t[start..middle + 1];
    assert s[middle + 1 - start..] == t[middle + 1..end + 1];
  }

  /** Equal ranges have equal halves. */
  lemma HalvesAgree(s: seq<int>, t: seq<int>, start: int, middle: int, end: int)
    requires 0 <= start <= middle < end < |s| && end < |t|
    requires s[start..end + 1] == t[start..end + 1]
    ensures s[start..middle + 1] == t[start..middle + 1]
    ensures s[middle + 1..end + 1] == t[middle + 1..end + 1]
  {
    assert s[start..middle + 1] == s[start..end + 1][..middle + 1 - start];
    assert t[start..middle + 1] == t[start..end + 1][..middle + 1 - start];
    assert s[middle + 1..end + 1] == s[start..end + 1][middle + 1 - start..];
    assert t[middle + 1..end + 1] == t[start..end + 1][middle + 1 - start..];
  }

  /** What mergeSortHelper leaves behind: m[start..end] (m0 before) is the
      merge sort of s, and m and a differ from m0 and a0 only inside
      [start, end]. */
  ghost predicate SortedRange(m: seq<int>, a: seq<int>, m0: seq<int>, a0: seq<int>, start: int, end: int, s: seq<int>) {
    && 0 <= start <= end < |m0|
    && Untouched(m, m0, start, end) && Untouched(a, a0, start, end)
    && m[start..end + 1] == MergeSortSpec(s)
  }

  /** After the left half has been sorted, the right halves of both arrays
      still hold the original right half. */
  lemma RightHalfUntouched(m0: seq<int>, a0: seq<int>, m1: seq<int>, a1: seq<int>, start: int, middle: int, end: int)
    requires 0 <= start <= middle < end < |m0| && |a0| == |m0|
    requires m0[start..end + 1] == a0[start..end + 1]
    requires SortedRange(a1, m1, a0, m0, start, middle, m0[start..middle + 1])
    ensures a1[middle + 1..end + 1] == m0[middle + 1..end + 1] == m1[middle + 1..end + 1]
  {
    HalvesAgree(m0, a0, start, middle, end);
    SliceClear(m1, m0, start, middle, middle + 1, end + 1);
    SliceClear(a1, a0, start, middle, middle + 1, end + 1);
  }

  /** One level of mergeSortHelper: with the left half sorted into aux
      (a0 to a1), the right half sorted into aux (a1 to a2) and the two
      merged into main (m2 to m3), main holds the merge sort of the range
      and both arrays are unchanged outside it. */
  lemma LevelSorts(m0: seq<int>, a0: seq<int>, m1: seq<int>, a1: seq<int>, m2: seq<int>, a2: seq<int>,
                   m3: seq<int>, start: int, middle: int, end: int)
    requires 0 <= start <= middle < end < |m0| == |a0| && middle == (start + end) / 2
    requires m0[start..end + 1] == a0[start..end + 1]
    requires SortedRange(a1, m1, a0, m0, start, middle, m0[start..middle + 1])
    requires SortedRange(a2, m2, a1, m1, middle + 1, end, m0[middle + 1..end + 1])
    requires Untouched(m3, m2, start, end)
    requires m3[start..end + 1] == Merge(a2[start..middle + 1], a2[middle + 1..end + 1])
    ensures SortedRange(m3, a2, m0, a0, start, end, m0[start..end + 1])
  {
    SliceClear(a2, a1, middle + 1, end, start, middle + 1);
    SpecSplit(m0, start, middle, end);
    LevelFrames(m0, a0, m1, a1, m2, a2, m3, start, middle, end);
  }

  /** The frames of one level of mergeSortHelper compose. */
  lemma LevelFrames(m0: seq<int>, a0: seq<int>, m1: seq<int>, a1: seq<int>, m2: seq<int>, a2: seq<int>,
                    m3: seq<int>, start: int, middle: int, end: int)
    requires 0 <= start <= middle < end < |m0| == |a0|
    requires Untouched(m1, m0, start, middle) && Untouched(a1, a0, start, middle)
    requires Untouched(m2, m1, middle + 1, end) && Untouched(a2, a1, middle + 1, end)
    requires Untouched(m3, m2, start, end)
    ensures Untouched(m3, m0, start, end) && Untouched(a2, a0, start, end)
  {
    UntouchedTrans(a2, a1, a0, middle + 1, end, start, end);
    UntouchedTrans(m2, m1, m0, middle + 1, end, start, end);
    UntouchedTrans(m3, m2, m0, start, end, start, end);
  }

  /** mergeSortHelper: sorts main[start..end], which holds the ghost
      sequence s, using aux, whose range [start..end] holds s as well, as
      scratch space; each recursive call swaps the roles of the two arrays. */
  method MergeSortHelper(main: array<int>, start: int, end: int, aux: array<int>,
                         anims: seq<MergeAnimation>, ghost s: seq<int>)
    returns (anims': seq<MergeAnimation>)
    requires main != aux && main.Length == aux.Length && 0 <= start <= end < main.Length
    requires main[start..end + 1] == s && aux[start..end + 1] == s
    modifies main, aux
    ensures SortedRange(main[..], aux[..], old(main[..]), old(aux[..]), start, end, s)
    decreases end - start
  {
    if start == end {
      return anims;
    }
    var middle := (start + end) / 2;
    anims' := anims + [Divide(start, end, middle)];
    ghost var m0, a0 := main[..], aux[..];
    HalvesAgree(m0, a0, start, middle, end);
    anims' := MergeSortHelper(aux, start, middle, main, anims', m0[start..middle + 1]);
    ghost var m1, a1 := main[..], aux[..];
    RightHalfUntouched(m0, a0, m1, a1, start, middle, end);
    anims' := MergeSortHelper(aux, middle + 1, end, main, anims', m0[middle + 1..end + 1]);
    ghost var m2, a2 := main[..], aux[..];
    anims' := DoMerge(main, start, middle, end, aux, anims');
    LevelSorts(m0, a0, m1, a1, m2, a2, main[..], start, middle, end);
  }

  /** getMergeSortAnimations: sorts the array in place, with a copy of it as
      the auxiliary array, and ends the animations with a 'complete' entry
      naming every index. The source recurses without end on an empty array
      (floor((0 + -1) / 2) = -1 reproduces the range [0, -1]), so the array
      must be non-empty. */
  method GetMergeSortAnimations(arr: array<int>) returns (anims: seq<MergeAnimation>)
    requires arr.Length > 0
    modifies arr
    ensures arr[..] == MergeSortSpec(old(arr[..]))
    ensures Sorted(arr[..]) && multiset(arr[..]) == multiset(old(arr[..]))
    ensures |anims| > 0 && anims[|anims| - 1] == Complete(seq(arr.Length, i => i))
  {
    var n := arr.Length;
    ghost var input := arr[..];
    var aux := new int[n];
    forall i | 0 <= i < n {
      aux[i] := arr[i];
    }
    assert aux[..] == input && arr[..] == input;
    assert arr[0..n] == input && aux[0..n] == input;
    anims := MergeSortHelper(arr, 0, n - 1, aux, [], input);
    assert arr[..] == arr[0..n];
    MergeSortSpecSorted(input);
    MergeSortSpecPermutes(input);
    anims := anims + [Complete(seq(n, i => i))];
  }

  // ------------------------------------------------------ tree build steps

  datatype TreeAction = DivideStep | MergeStep | CompleteStep
  datatype Range = Range(start: int, end: int)

  /** A step of the tree view: its number, the array shown, the range
      highlighted (none for the final step) and what happens in it. */
  datatype TreeBuildStep = TreeBuildStep(step: int, values: seq<int>, activeRange: Option<Range>, action: TreeAction)

  /** Every step is numbered by its position and shows arr. */
  predicate StepsNumbered(steps: seq<TreeBuildStep>, arr: seq<int>) {
    forall k :: 0 <= k < |steps| ==> steps[k].step == k && steps[k].values == arr
  }

  function CountAction(steps: seq<TreeBuildStep>, a: TreeAction): nat {
    if steps == [] then 0
    else CountAction(steps[..|steps| - 1], a) + (if steps[|steps| - 1].action == a then 1 else 0)
  }

  lemma CountActionAppend(steps: seq<TreeBuildStep>, t: TreeBuildStep, a: TreeAction)
    ensures CountAction(steps + [t], a) == CountAction(steps, a) + (if t.action == a then 1 else 0)
  {
    assert (steps + [t])[..|steps|] == steps;
  }

  /** Pushing the next step keeps the numbering and adds one to the count
      of its action. */
  lemma PushStep(steps: seq<TreeBuildStep>, t: TreeBuildStep, arr: seq<int>)
    requires StepsNumbered(steps, arr) && t.step == |steps| && t.values == arr
    ensures StepsNumbered(steps + [t], arr) && (steps + [t])[..|steps|] == steps
    ensures forall a :: CountAction(steps + [t], a) == CountAction(steps, a) + (if t.action == a then 1 else 0)
  {
    forall a {
      CountActionAppend(steps, t, a);
    }
  }

  /** Every step in steps[lo..hi) highlights a range. */
  predicate Highlighted(steps: seq<TreeBuildStep>, lo: int, hi: int) {
    forall k :: lo <= k < hi && 0 <= k < |steps| ==> steps[k].activeRange.Some?
  }

  lemma HighlightedPrefix(x: seq<TreeBuildStep>, y: seq<TreeBuildStep>, lo: int, hi: int)
    requires |x| <= |y| && y[..|x|] == x && hi <= |x| && Highlighted(x, lo, hi)
    ensures Highlighted(y, lo, hi)
  {
    assert forall k :: 0 <= k < |x| ==> y[k] == y[..|x|][k];
  }

  lemma PrefixTrans<T>(x: seq<T>, y: seq<T>, z: seq<T>)
    requires |x| <= |y| <= |z| && y[..|x|] == x && z[..|y|] == y
    ensures z[..|x|] == x
  {
    assert z[..|x|] == z[..|y|][..|x|];
  }

  /** buildSteps: the divide step of [start, end], the steps of both halves,
      then its merge step; the step counter always equals the number of
      steps pushed so far, so it is modelled by |steps|. A range of fewer
      than two cells adds nothing, and each range of n >= 2 cells adds
      n - 1 divide steps and n - 1 merge steps. */
  method BuildSteps(arr: seq<int>, start: int, end: int, steps: seq<TreeBuildStep>)
    returns (steps': seq<TreeBuildStep>)
    requires StepsNumbered(steps, arr)
    ensures |steps'| == |steps| + 2 * (if start < end then end - start else 0)
    ensures StepsNumbered(steps', arr) && steps'[..|steps|] == steps
    ensures CountAction(steps', DivideStep) == CountAction(steps, DivideStep) + (if start < end then end - start else 0)
    ensures CountAction(steps', MergeStep) == CountAction(steps, MergeStep) + (if start < end then end - start else 0)
    ensures CountAction(steps', CompleteStep) == CountAction(steps, CompleteStep)
    ensures Highlighted(steps', |steps|, |steps'|)
    decreases end - start
  {
    if start >= end {
      return steps;
    }
    var mid := (start + end) / 2;
    var divide := TreeBuildStep(|steps|, arr, Some(Range(start, end)), DivideStep);
    PushStep(steps, divide, arr);
    var s0 := steps + [divide];
    var s1 := BuildSteps(arr, start, mid, s0);
    var s2 := BuildSteps(arr, mid + 1, end, s1);
    var merge := TreeBuildStep(|s2|, arr, Some(Range(start, end)), MergeStep);
    PushStep(s2, merge, arr);
    steps' := s2 + [merge];
    PrefixTrans(s0, s1, s2);
    PrefixTrans(s0, s2, steps');
    PrefixTrans(steps, s0, steps');
    PrefixTrans(s1, s2, steps');
    HighlightedPrefix(s1, steps', |s0|, |s1|);
    HighlightedPrefix(s2, steps', |s1|, |s2|);
  }

  /** generateTreeBuildSteps: the steps of the whole array followed by one
      'complete' step without a highlighted range. */
  method GenerateTreeBuildSteps(arr: seq<int>) returns (steps: seq<TreeBuildStep>)
    ensures StepsNumbered(steps, arr)
    ensures |steps| == 2 * (if |arr| > 0 then |arr| - 1 else 0) + 1
    ensures CountAction(steps, DivideStep) == CountAction(steps, MergeStep) == |steps| / 2
    ensures CountAction(steps, CompleteStep) == 1
    ensures steps[|steps| - 1] == TreeBuildStep(|steps| - 1, arr, None, CompleteStep)
    ensures Highlighted(steps, 0, |steps| - 1)
  {
    steps := BuildSteps(arr, 0, |arr| - 1, []);
    var complete := TreeBuildStep(|steps|, arr, None, CompleteStep);
    PushStep(steps, complete, arr);
    steps := steps + [complete];
  }

  /** A node of the tree view: the cell's index and value and whether it
      lies in the step's highlighted range. */
  datatype TreeNode = TreeNode(index: int, value: int, active: bool)

  predicate InRange(r: Option<Range>, k: int) {
    r.Some? && r.value.start <= k <= r.value.end
  }

  /** generateTreeFromSteps: no nodes for a step index outside the steps;
      otherwise one node per cell of that step's array, highlighted exactly
      when it lies in the active range. No edges are ever produced. */
  method GenerateTreeFromSteps(steps: seq<TreeBuildStep>, stepIndex: int)
    returns (nodes: seq<TreeNode>, edges: seq<(int, int)>)
    ensures edges == []
    ensures !(0 <= stepIndex < |steps|) ==> nodes == []
    ensures 0 <= stepIndex < |steps| ==>
      |nodes| == |steps[stepIndex].values| &&
      forall k :: 0 <= k < |nodes| ==>
        nodes[k] == TreeNode(k, steps[stepIndex].values[k], InRange(steps[stepIndex].activeRange, k))
  {
    nodes, edges := [], [];
    if stepIndex < 0 || stepIndex >= |steps| {
      return;
    }
    var current := steps[stepIndex];
    var index := 0;
    while index < |current.values|
      invariant 0 <= index <= |current.values| && |nodes| == index
      invariant forall k :: 0 <= k < index ==> nodes[k] == TreeNode(k, current.values[k], InRange(current.activeRange, k))
    {
      nodes := nodes + [TreeNode(index, current.values[index], InRange(current.activeRange, index))];
      index := index + 1;
    }
  }
}
