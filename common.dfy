/** Definitions shared by several visualizers: ordering of integer
    sequences, the stable merge that every merge-based sort performs,
    sums over a slice, and the in-place swap of two array cells. */
module Common {

  datatype Option<T> = None | Some(value: T)

  /** Non-decreasing order. */
  predicate Sorted(s: seq<int>) {
    forall i, j :: 0 <= i < j < |s| ==> s[i] <= s[j]
  }

  /** Strictly increasing order. */
  predicate Increasing(s: seq<int>) {
    forall i, j :: 0 <= i < j < |s| ==> s[i] < s[j]
  }

  /** Two increasing runs on either side of v make an increasing run. */
  lemma IncreasingJoin(a: seq<int>, v: int, b: seq<int>)
    requires Increasing(a) && Increasing(b)
    requires forall k :: 0 <= k < |a| ==> a[k] < v
    requires forall k :: 0 <= k < |b| ==> v < b[k]
    ensures Increasing(a + [v] + b)
  {
    var s := a + [v] + b;
    forall i, j | 0 <= i < j < |s|
      ensures s[i] < s[j]
    {
      if j < |a| {
      } else if i < |a| {
        if j > |a| {
          assert s[j] == b[j - |a| - 1];
        }
      } else if i == |a| {
        assert s[j] == b[j - |a| - 1];
      } else {
        assert s[i] == b[i - |a| - 1] && s[j] == b[j - |a| - 1];
      }
    }
  }

  /** Each element is at most its right neighbour. */
  predicate AdjacentSorted(s: seq<int>) {
    forall i, j :: 0 <= i < |s| && 0 <= j < |s| && j == i + 1 ==> s[i] <= s[j]
  }

  lemma {:induction false} AdjacentSortedIsSorted(s: seq<int>)
    requires AdjacentSorted(s)
    ensures Sorted(s)
  {
    if |s| > 1 {
      AdjacentSortedIsSorted(s[..|s| - 1]);
      assert forall i :: 0 <= i < |s| - 1 ==> s[i] <= s[|s| - 2];
    }
  }

  /** The stable merge of two sequences: on a tie the element of the left
      sequence comes first. */
  function Merge(left: seq<int>, right: seq<int>): seq<int>
    decreases |left| + |right|
  {
    if left == [] then right
    else if right == [] then left
    else if left[0] <= right[0] then [left[0]] + Merge(left[1..], right)
    else [right[0]] + Merge(left, right[1..])
  }

  lemma MultisetHead(s: seq<int>)
    requires |s| > 0
    ensures multiset(s) == multiset{s[0]} + multiset(s[1..])
  {
    assert s == [s[0]] + s[1..];
  }

  lemma {:induction false} MergeIsPermutation(left: seq<int>, right: seq<int>)
    ensures multiset(Merge(left, right)) == multiset(left) + multiset(right)
    ensures |Merge(left, right)| == |left| + |right|
    decreases |left| + |right|
  {
    if left == [] || right == [] {
    } else if left[0] <= right[0] {
      MergeIsPermutation(left[1..], right);
      MultisetHead(left);
    } else {
      MergeIsPermutation(left, right[1..]);
      MultisetHead(right);
    }
  }

  /** Every element of a merge is bounded below by a common lower bound of its inputs. */
  lemma {:induction false} MergeLowerBound(left: seq<int>, right: seq<int>, b: int)
    requires forall i :: 0 <= i < |left| ==> b <= left[i]
    requires forall i :: 0 <= i < |right| ==> b <= right[i]
    ensures forall i :: 0 <= i < |Merge(left, right)| ==> b <= Merge(left, right)[i]
    decreases |left| + |right|
  {
    if left == [] || right == [] {
    } else if left[0] <= right[0] {
      MergeLowerBound(left[1..], right, b);
    } else {
      MergeLowerBound(left, right[1..], b);
    }
  }

  lemma {:induction false} MergeSorted(left: seq<int>, right: seq<int>)
    requires Sorted(left) && Sorted(right)
    ensures Sorted(Merge(left, right))
    decreases |left| + |right|
  {
    if left == [] || right == [] {
    } else if left[0] <= right[0] {
      MergeSorted(left[1..], right);
      MergeLowerBound(left[1..], right, left[0]);
    } else {
      MergeSorted(left, right[1..]);
      MergeLowerBound(left, right[1..], right[0]);
    }
  }

  /** Sum of s[lo..hi). */
  function SumRange(s: seq<int>, lo: int, hi: int): int
    requires 0 <= lo <= hi <= |s|
    decreases hi - lo
  {
    if lo == hi then 0 else SumRange(s, lo, hi - 1) + s[hi - 1]
  }

  lemma {:induction false} SumRangeSplit(s: seq<int>, lo: int, mid: int, hi: int)
    requires 0 <= lo <= mid <= hi <= |s|
    ensures SumRange(s, lo, hi) == SumRange(s, lo, mid) + SumRange(s, mid, hi)
    decreases hi - mid
  {
    if mid < hi {
      SumRangeSplit(s, lo, mid, hi - 1);
    }
  }

  /** Changing one position changes every sum over a block holding it by
      the same amount, and no other block sum. */
  lemma {:induction false} SumRangeUpdate(s: seq<int>, k: int, d: int, lo: int, hi: int)
    requires 0 <= k < |s| && 0 <= lo <= hi <= |s|
    ensures SumRange(s[k := s[k] + d], lo, hi) == SumRange(s, lo, hi) + (if lo <= k < hi then d else 0)
    decreases hi - lo
  {
    if lo < hi {
      SumRangeUpdate(s, k, d, lo, hi - 1);
    }
  }

  /** Splitting a sequence splits its multiset of elements. */
  lemma MultisetSplit(s: seq<int>, h: int)
    requires 0 <= h <= |s|
    ensures multiset(s) == multiset(s[..h]) + multiset(s[h..])
  {
    assert s == s[..h] + s[h..];
  }

  /** The same for a slice split at mid. */
  lemma MultisetSlices(s: seq<int>, lo: int, mid: int, hi: int)
    requires 0 <= lo <= mid <= hi <= |s|
    ensures multiset(s[lo..hi]) == multiset(s[lo..mid]) + multiset(s[mid..hi])
  {
    assert s[lo..hi] == s[lo..mid] + s[mid..hi];
  }

  /** Two sequences that agree outside [lo, hi) and are permutations of each
      other are permutations of each other on [lo, hi) as well. */
  lemma PermutationInside(s: seq<int>, t: seq<int>, lo: int, hi: int)
    requires 0 <= lo <= hi <= |s| == |t|
    requires multiset(s) == multiset(t)
    requires forall k :: 0 <= k < |s| && (k < lo || hi <= k) ==> s[k] == t[k]
    ensures multiset(s[lo..hi]) == multiset(t[lo..hi])
  {
    MultisetSplit(s, hi);
    MultisetSplit(t, hi);
    MultisetSlices(s, 0, lo, hi);
    MultisetSlices(t, 0, lo, hi);
    assert s[0..hi] == s[..hi] && t[0..hi] == t[..hi];
    assert s[0..lo] == t[0..lo];
    assert s[hi..] == t[hi..];
    assert multiset(s[lo..hi]) == multiset(s) - multiset(s[0..lo]) - multiset(s[hi..]);
  }

  /** Conversely, permuting [lo, hi) and nothing else permutes the whole. */
  lemma PermutationOfSegment(s: seq<int>, t: seq<int>, lo: int, hi: int)
    requires 0 <= lo <= hi <= |s| == |t|
    requires multiset(s[lo..hi]) == multiset(t[lo..hi])
    requires forall k :: 0 <= k < |s| && (k < lo || hi <= k) ==> s[k] == t[k]
    ensures multiset(s) == multiset(t)
  {
    assert s == s[..lo] + s[lo..hi] + s[hi..];
    assert t == t[..lo] + t[lo..hi] + t[hi..];
    assert s[..lo] == t[..lo];
    assert s[hi..] == t[hi..];
  }

  /** Moving a value one place within a sequence that has a hole: the
      sequence with the hole at i filled by x has the same elements as the
      one where the value at k moved into i and the hole moved to k. */
  lemma MoveIntoHole(s: seq<int>, i: int, k: int, x: int)
    requires 0 <= i < |s| && 0 <= k < |s| && i != k
    ensures multiset(s[i := s[k]][k := x]) == multiset(s[i := x])
  {
    var u := s[i := x];
    assert s[i := s[k]][k := x] == u[i := u[k]][k := u[i]];
  }

  /** Exchanges two cells, the only way the in-place sorts rearrange an array. */
  method Swap(a: array<int>, i: int, j: int)
    requires 0 <= i < a.Length && 0 <= j < a.Length
    modifies a
    ensures a[i] == old(a[j]) && a[j] == old(a[i])
    ensures forall k :: 0 <= k < a.Length && k != i && k != j ==> a[k] == old(a[k])
    ensures multiset(a[..]) == multiset(old(a[..]))
  {
    a[i], a[j] := a[j], a[i];
  }

  /** The working copy `[...arr]`. */
  method Copy(arr: array<int>) returns (a: array<int>)
    ensures fresh(a) && a[..] == arr[..]
  {
    a := new int[arr.Length](i requires 0 <= i < arr.Length reads arr => arr[i]);
  }

  /** A fresh array holding s. */
  method FromSeq(s: seq<int>) returns (a: array<int>)
    ensures fresh(a) && a[..] == s
  {
    a := new int[|s|](i requires 0 <= i < |s| => s[i]);
  }

  /** JavaScript's indexOf: the first index holding x, or -1 when there is none. */
  function IndexOf<T(==)>(s: seq<T>, x: T): (r: int)
    ensures -1 <= r < |s|
    ensures r == -1 <==> x !in s
    ensures 0 <= r ==> s[r] == x && x !in s[..r]
  {
    if |s| == 0 then -1
    else if s[0] == x then 0
    else
      var k := IndexOf(s[1..], x);
      if k == -1 then -1
      else
        assert s[..k + 1] == [s[0]] + s[1..][..k];
        k + 1
  }

  /** No element occurs twice. */
  ghost predicate Distinct<T>(s: seq<T>) {
    forall i, j :: 0 <= i < j < |s| ==> s[i] != s[j]
  }

  lemma DuplicateCounted<T>(s: seq<T>, i: int, j: int)
    requires 0 <= i < j < |s| && s[i] == s[j]
    ensures multiset(s)[s[i]] >= 2
  {
    var x := s[i];
    assert s == s[..j] + [x] + s[j + 1..];
    assert x in s[..j];
  }

  lemma DistinctCounted<T>(s: seq<T>, i: int)
    requires Distinct(s) && 0 <= i < |s|
    ensures multiset(s)[s[i]] == 1
  {
    var x := s[i];
    assert s == s[..i] + [x] + s[i + 1..];
    assert x !in s[..i];
    assert x !in s[i + 1..];
  }

  /** A permutation of a sequence without repetitions has none either. */
  lemma PermutedDistinct<T>(s: seq<T>, r: seq<T>)
    requires Distinct(s) && multiset(r) == multiset(s)
    ensures Distinct(r)
  {
    forall i, j | 0 <= i < j < |r|
      ensures r[i] != r[j]
    {
      assert r[i] in multiset(s);
      var a :| 0 <= a < |s| && s[a] == r[i];
      if r[i] == r[j] {
        DuplicateCounted(r, i, j);
        DistinctCounted(s, a);
      }
    }
  }

  /** s and t have the same length and agree outside the cells lo..hi. */
  ghost predicate SameOutside(s: seq<int>, t: seq<int>, lo: int, hi: int) {
    |s| == |t| && forall k :: 0 <= k < |s| && (k < lo || hi < k) ==> s[k] == t[k]
  }

  lemma SameOutsideUpdate(s: seq<int>, t: seq<int>, lo: int, hi: int, k: int, x: int)
    requires SameOutside(s, t, lo, hi) && lo <= k <= hi && 0 <= k < |s|
    ensures SameOutside(s[k := x], t, lo, hi)
  {
  }

  lemma SameOutsideTrans(s: seq<int>, t: seq<int>, u: seq<int>, lo: int, hi: int, lo': int, hi': int)
    requires SameOutside(s, t, lo, hi) && SameOutside(t, u, lo', hi') && lo' <= lo && hi <= hi'
    ensures SameOutside(s, u, lo', hi')
  {
  }

  /** s[lo..hi) is in non-decreasing order, stated on indices of s. */
  ghost predicate SortedBetween(s: seq<int>, lo: int, hi: int) {
    forall p, q :: lo <= p < q < hi && 0 <= p && q < |s| ==> s[p] <= s[q]
  }

  /** Every element of s[..k] is at most every element of s[k..]. */
  ghost predicate Partitioned(s: seq<int>, k: int) {
    forall p, q :: 0 <= p < k <= q < |s| ==> s[p] <= s[q]
  }

  function Min(x: int, y: int): int {
    if x <= y then x else y
  }

  /** The Fibonacci numbers: 0, 1, 1, 2, 3, 5, ... */
  function Fib(n: nat): nat {
    if n < 2 then n else Fib(n - 1) + Fib(n - 2)
  }

  function Max(x: int, y: int): int {
    if x >= y then x else y
  }

  /** The first t elements of m sit at s[left..left+t). */
  ghost predicate Placed(s: seq<int>, left: int, m: seq<int>, t: int) {
    0 <= left && 0 <= t <= |m| && left + t <= |s| && forall k :: 0 <= k < t ==> s[left + k] == m[k]
  }

  lemma PlacedNext(s: seq<int>, left: int, m: seq<int>, t: int, x: int)
    requires Placed(s, left, m, t) && t < |m| && left + t < |s| && m[t] == x
    ensures Placed(s[left + t := x], left, m, t + 1)
  {
  }

  lemma PlacedAll(s: seq<int>, left: int, m: seq<int>)
    requires Placed(s, left, m, |m|)
    ensures s[left..left + |m|] == m
  {
  }

  /** Taking the head of the left input is the next step of the merge. */
  lemma MergeTakeLeft(l: seq<int>, r: seq<int>, i: int, j: int, m: seq<int>)
    requires 0 <= i < |l| && 0 <= j <= |r| && i + j <= |m|
    requires Merge(l[i..], r[j..]) == m[i + j..]
    requires j == |r| || l[i] <= r[j]
    ensures i + j < |m| && m[i + j] == l[i] && Merge(l[i + 1..], r[j..]) == m[i + j + 1..]
  {
    assert l[i..][1..] == l[i + 1..];
  }

  /** Taking the head of the right input is the next step of the merge. */
  lemma MergeTakeRight(l: seq<int>, r: seq<int>, i: int, j: int, m: seq<int>)
    requires 0 <= i <= |l| && 0 <= j < |r| && i + j <= |m|
    requires Merge(l[i..], r[j..]) == m[i + j..]
    requires i == |l| || l[i] > r[j]
    ensures i + j < |m| && m[i + j] == r[j] && Merge(l[i..], r[j + 1..]) == m[i + j + 1..]
  {
    assert r[j..][1..] == r[j + 1..];
  }

  /** The state of the merge of l and r into m = Merge(l, r), placed from
      index left of s, once i elements of l and j of r have been taken. */
  ghost predicate MergeState(s: seq<int>, left: int, l: seq<int>, r: seq<int>, m: seq<int>, i: int, j: int) {
    && 0 <= i <= |l| && 0 <= j <= |r| && |m| == |l| + |r|
    && Merge(l[i..], r[j..]) == m[i + j..]
    && Placed(s, left, m, i + j)
  }

  /** Placing the head of the left input advances the merge state. */
  lemma MergeStateLeft(s: seq<int>, left: int, l: seq<int>, r: seq<int>, m: seq<int>, i: int, j: int)
    requires MergeState(s, left, l, r, m, i, j) && i < |l| && (j == |r| || l[i] <= r[j])
    requires left + i + j < |s|
    ensures MergeState(s[left + i + j := l[i]], left, l, r, m, i + 1, j)
  {
    MergeTakeLeft(l, r, i, j, m);
    PlacedNext(s, left, m, i + j, l[i]);
  }

  /** Placing the head of the right input advances the merge state. */
  lemma MergeStateRight(s: seq<int>, left: int, l: seq<int>, r: seq<int>, m: seq<int>, i: int, j: int)
    requires MergeState(s, left, l, r, m, i, j) && j < |r| && (i == |l| || l[i] > r[j])
    requires left + i + j < |s|
    ensures MergeState(s[left + i + j := r[j]], left, l, r, m, i, j + 1)
  {
    MergeTakeRight(l, r, i, j, m);
    PlacedNext(s, left, m, i + j, r[j]);
  }

  // ------------------------------------------------------ text

  /** The characters JavaScript's `\s` matches. */
  predicate IsWhitespace(c: char) {
    c == ' ' || c == '\t' || c == '\n' || c == '\r' || c == '\U{0B}' || c == '\U{0C}'
    || c == '\U{A0}' || c == '\U{1680}' || ('\U{2000}' <= c <= '\U{200A}')
    || c == '\U{2028}' || c == '\U{2029}' || c == '\U{202F}' || c == '\U{205F}'
    || c == '\U{3000}' || c == '\U{FEFF}'
  }

  /** `replace(/\s/g, '')`: the string without its whitespace; it is empty
      exactly when trimming the string leaves nothing. */
  function RemoveWhitespace(s: string): string {
    if |s| == 0 then []
    else (if IsWhitespace(s[0]) then [] else [s[0]]) + RemoveWhitespace(s[1..])
  }

  /** `!text.trim()`: nothing but whitespace. */
  predicate Blank(text: string) {
    RemoveWhitespace(text) == []
  }

  lemma {:induction false} RemoveWhitespaceKeeps(s: string)
    ensures |RemoveWhitespace(s)| <= |s|
    ensures forall c :: c in RemoveWhitespace(s) <==> c in s && !IsWhitespace(c)
    ensures |RemoveWhitespace(s)| == 0 <==> forall k :: 0 <= k < |s| ==> IsWhitespace(s[k])
  {
    if |s| > 0 {
      RemoveWhitespaceKeeps(s[1..]);
      assert s == [s[0]] + s[1..];
      if !IsWhitespace(s[0]) {
        assert s[0] in RemoveWhitespace(s);
      }
    }
  }

  lemma {:induction false} RemoveWhitespaceAppend(a: string, b: string)
    ensures RemoveWhitespace(a + b) == RemoveWhitespace(a) + RemoveWhitespace(b)
  {
    if |a| > 0 {
      assert (a + b)[1..] == a[1..] + b;
      RemoveWhitespaceAppend(a[1..], b);
    } else {
      assert a + b == b;
    }
  }

  lemma {:induction false} RemoveWhitespaceNone(s: string)
    requires forall k :: 0 <= k < |s| ==> !IsWhitespace(s[k])
    ensures RemoveWhitespace(s) == s
  {
    if |s| > 0 {
      RemoveWhitespaceNone(s[1..]);
      assert s == [s[0]] + s[1..];
    }
  }

  // ------------------------------------------------------ numbers in text

  predicate IsDigit(c: char) {
    '0' <= c <= '9'
  }

  predicate AllDigits(d: string) {
    forall k :: 0 <= k < |d| ==> IsDigit(d[k])
  }

  /** The longest run of digits s starts with. */
  function DigitPrefix(s: string): (d: string)
    ensures d <= s && AllDigits(d)
    ensures |d| < |s| ==> !IsDigit(s[|d|])
  {
    if |s| > 0 && IsDigit(s[0]) then [s[0]] + DigitPrefix(s[1..]) else []
  }

  function DigitsValue(d: string): nat
    requires AllDigits(d)
  {
    if |d| == 0 then 0 else 10 * DigitsValue(d[..|d| - 1]) + (d[|d| - 1] as int - '0' as int)
  }

  function Pow10(k: nat): (p: nat)
    ensures p > 0
  {
    if k == 0 then 1 else 10 * Pow10(k - 1)
  }

  /** The decimal digits of n, no leading zeros. */
  function NatText(n: nat): (d: string)
    ensures |d| > 0 && AllDigits(d)
    decreases n
  {
    if n < 10 then [('0' as int + n) as char] else NatText(n / 10) + [('0' as int + n % 10) as char]
  }

  lemma {:induction false} NatTextValue(n: nat)
    ensures DigitsValue(NatText(n)) == n
    decreases n
  {
    if n >= 10 {
      NatTextValue(n / 10);
      var d := NatText(n);
      assert d[..|d| - 1] == NatText(n / 10);
    }
  }

  lemma {:induction false} DigitPrefixOfDigits(d: string, rest: string)
    requires AllDigits(d) && (|rest| == 0 || !IsDigit(rest[0]))
    ensures DigitPrefix(d + rest) == d
    decreases |d|
  {
    if |d| > 0 {
      assert (d + rest)[1..] == d[1..] + rest;
      DigitPrefixOfDigits(d[1..], rest);
    } else {
      assert d + rest == rest;
    }
  }

  /** The string without its leading whitespace. */
  function TrimStart(s: string): (r: string)
    ensures |r| == 0 || !IsWhitespace(r[0])
  {
    if |s| > 0 && IsWhitespace(s[0]) then TrimStart(s[1..]) else s
  }

  /** JavaScript's parseInt(s, 10): leading whitespace is skipped, then an
      optional sign and the longest run of decimal digits are read; None
      stands for NaN, the result when no digit follows. */
  function ParseDecimal(s: string): (r: Option<int>)
  {
    var t := TrimStart(s);
    var negative := |t| > 0 && t[0] == '-';
    var body := if |t| > 0 && (t[0] == '-' || t[0] == '+') then t[1..] else t;
    var d := DigitPrefix(body);
    var v: int := if |d| == 0 then 0 else DigitsValue(d);
    if |d| == 0 then None else Some(if negative then -v else v)
  }

  /** The text parseInt reads its digits from: leading whitespace and
      one sign removed. */
  function Unsigned(s: string): string {
    var t := TrimStart(s);
    if |t| > 0 && (t[0] == '-' || t[0] == '+') then t[1..] else t
  }

  predicate IsHexDigit(c: char) {
    IsDigit(c) || 'a' <= c <= 'f' || 'A' <= c <= 'F'
  }

  /** The longest run of hexadecimal digits s starts with. */
  function HexDigitPrefix(s: string): (d: string)
    ensures d <= s && forall k :: 0 <= k < |d| ==> IsHexDigit(d[k])
    ensures |d| < |s| ==> !IsHexDigit(s[|d|])
  {
    if |s| > 0 && IsHexDigit(s[0]) then [s[0]] + HexDigitPrefix(s[1..]) else []
  }

  function HexDigitValue(c: char): (v: nat)
    requires IsHexDigit(c)
    ensures v < 16
  {
    if IsDigit(c) then c as int - '0' as int
    else if 'a' <= c <= 'f' then c as int - 'a' as int + 10
    else c as int - 'A' as int + 10
  }

  function HexValue(d: string): nat
    requires forall k :: 0 <= k < |d| ==> IsHexDigit(d[k])
  {
    if |d| == 0 then 0 else 16 * HexValue(d[..|d| - 1]) + HexDigitValue(d[|d| - 1])
  }

  /** A "0x" or "0X" prefix, which makes parseInt without a radix read
      hexadecimal. */
  predicate HexPrefixed(body: string) {
    |body| >= 2 && body[0] == '0' && (body[1] == 'x' || body[1] == 'X')
  }

  /** JavaScript's parseInt(s) without a radix: after the whitespace and
      the sign, a "0x"/"0X" prefix selects base 16 and the longest run of
      hexadecimal digits after it is read; any other text is read as
      parseInt(s, 10) reads it. None stands for NaN: no digit where the
      digits should start. */
  function ParseIntAuto(s: string): (r: Option<int>)
    ensures r.None? <==>
      if HexPrefixed(Unsigned(s)) then |Unsigned(s)| == 2 || !IsHexDigit(Unsigned(s)[2])
      else |Unsigned(s)| == 0 || !IsDigit(Unsigned(s)[0])
    ensures r.Some? && |TrimStart(s)| > 0 && TrimStart(s)[0] == '-' ==> r.value <= 0
    ensures r.Some? && !(|TrimStart(s)| > 0 && TrimStart(s)[0] == '-') ==> r.value >= 0
  {
    var body := Unsigned(s);
    if HexPrefixed(body) then
      var d := HexDigitPrefix(body[2..]);
      var v: int := HexValue(d);
      var t := TrimStart(s);
      if |d| == 0 then None else Some(if |t| > 0 && t[0] == '-' then -v else v)
    else
      ParseDecimal(s)
  }

  /** Without a "0x" prefix, parseInt(s) and parseInt(s, 10) agree. */
  lemma ParseIntAutoDecimal(s: string)
    requires !HexPrefixed(Unsigned(s))
    ensures ParseIntAuto(s) == ParseDecimal(s)
  {
  }

  /** Where the two readings part: "0x2" is 2 without a radix and 0 in
      base 10; "0x" is NaN without a radix and 0 in base 10. */
  lemma ParseIntAutoExamples()
    ensures ParseIntAuto("0x2") == Some(2) && ParseDecimal("0x2") == Some(0)
    ensures ParseIntAuto("0x") == None && ParseDecimal("0x") == Some(0)
    ensures ParseIntAuto(" -0X1f") == Some(-31)
  {
    assert Unsigned("0x2") == "0x2";
    assert HexDigitPrefix("2") == "2";
    assert TrimStart("0x2") == "0x2";
    assert DigitPrefix("0x2") == "0";
    assert DigitsValue("0") == 0 by { assert "0"[..0] == ""; }
    assert Unsigned("0x") == "0x";
    assert TrimStart("0x") == "0x";
    assert DigitPrefix("0x") == "0";
    assert TrimStart(" -0X1f") == "-0X1f";
    assert Unsigned(" -0X1f") == "0X1f";
    assert HexDigitPrefix("1f") == "1f";
    assert "1f"[..1] == "1";
  }

  /** The decimal text of every integer reads back the same without a
      radix. */
  lemma ParseIntAutoIntText(v: int)
    ensures ParseIntAuto(IntText(v)) == Some(v)
  {
    var t := IntText(v);
    var n: nat := if v < 0 then -v else v;
    assert t[0] == '-' || IsDigit(t[0]);
    TrimStartSkips(t, 0);
    assert Unsigned(t) == NatText(n);
    ParseIntAutoDecimal(t);
    ParseDecimalIntText(v);
  }

  /** The decimal text of an integer, with '-' before a negative one. */
  function IntText(v: int): (d: string)
    ensures |d| > 0
  {
    if v < 0 then "-" + NatText(-v) else NatText(v)
  }

  /** Reading back the text of an integer gives the integer: every integer
      can be typed into an input box. */
  lemma ParseDecimalIntText(v: int)
    ensures ParseDecimal(IntText(v)) == Some(v)
  {
    var n: nat := if v < 0 then -v else v;
    var t := IntText(v);
    NatTextValue(n);
    DigitPrefixOfDigits(NatText(n), "");
    assert NatText(n) + "" == NatText(n);
    assert t[0] == '-' || IsDigit(t[0]);
    TrimStartSkips(t, 0);
    assert TrimStart(t) == t;
    var body := if t[0] == '-' || t[0] == '+' then t[1..] else t;
    assert body == NatText(n);
  }

  /** Text whose first non-blank character is neither a sign nor a digit
      is NaN. */
  lemma ParseDecimalRejects(s: string, k: nat)
    requires k < |s| && forall i :: 0 <= i < k ==> IsWhitespace(s[i])
    requires !IsWhitespace(s[k]) && !IsDigit(s[k]) && s[k] != '+' && s[k] != '-'
    ensures ParseDecimal(s) == None
  {
    TrimStartSkips(s, k);
  }

  lemma {:induction false} TrimStartSkips(s: string, k: nat)
    requires k < |s| && forall i :: 0 <= i < k ==> IsWhitespace(s[i])
    requires !IsWhitespace(s[k])
    ensures TrimStart(s) == s[k..]
    decreases k
  {
    if k > 0 {
      TrimStartSkips(s[1..], k - 1);
      assert s[1..][k - 1..] == s[k..];
    }
  }

  /** A non-empty sequence is its front and its last element. */
  lemma LastSplit<T>(s: seq<T>)
    requires |s| > 0
    ensures s == s[..|s| - 1] + [s[|s| - 1]]
  {
  }

  lemma AppendAssociates<T>(a: seq<T>, b: seq<T>, c: seq<T>)
    ensures a + (b + c) == (a + b) + c
  {
  }

  /** A positive m times a non-zero k is at least m in size. */
  lemma MulBounds(m: int, k: int)
    requires m > 0
    ensures k >= 1 ==> m * k >= m
    ensures k <= -1 ==> m * k <= -m
    decreases if k >= 0 then k else -k
  {
    if k >= 1 {
      var j := k - 1;
      assert m * k == m * j + m;
      if j > 0 { MulBounds(m, j); }
    } else if k <= -1 {
      var j := k + 1;
      assert m * k == m * j - m;
      if j < 0 { MulBounds(m, j); }
    }
  }

  lemma DivModSplit(x: int, m: nat)
    requires m > 0
    ensures x == m * (x / m) + x % m
  {
  }

  /** Adding a multiple of m does not change the remainder modulo m. */
  lemma ModMultiple(x: int, q: int, m: nat)
    requires m > 0
    ensures (x + m * q) % m == x % m
  {
    var y := x + m * q;
    var a := y / m;
    var b := x / m;
    assert y == m * a + y % m;
    assert x == m * b + x % m;
    assert m * (a - q - b) == x % m - y % m by {
      assert m * (a - q - b) == m * a - m * q - m * b;
    }
    MulBounds(m, a - q - b);
  }
}
