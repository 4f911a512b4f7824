/** The suffix-array screen: the text gets a '$' terminator, its suffixes are
    bubble-sorted into lexicographic order, the longest-common-prefix (LCP)
    array is filled by Kasai's method, and a pattern is looked up by two binary
    searches over the sorted suffixes. */
module SuffixArrayPage {
  import opened Common
  import opened StringMatching

  // ------------------------------------------------------ string order

  /** JavaScript's `<` on strings: the first differing character decides, and
      a proper prefix comes first. */
  predicate Less(a: string, b: string)
    decreases |a|
  {
    if |a| == 0 then |b| > 0
    else if |b| == 0 then false
    else if a[0] != b[0] then a[0] < b[0]
    else Less(a[1..], b[1..])
  }

  predicate Leq(a: string, b: string) {
    !Less(b, a)
  }

  lemma {:induction false} LessIrreflexive(a: string)
    ensures !Less(a, a)
    decreases |a|
  {
    if |a| > 0 {
      LessIrreflexive(a[1..]);
    }
  }

  lemma {:induction false} LessAsymmetric(a: string, b: string)
    ensures Less(a, b) ==> !Less(b, a)
    decreases |a|
  {
    if |a| > 0 && |b| > 0 && a[0] == b[0] {
      LessAsymmetric(a[1..], b[1..]);
    }
  }

  lemma {:induction false} LessTransitive(a: string, b: string, c: string)
    ensures Less(a, b) && Less(b, c) ==> Less(a, c)
    decreases |a|
  {
    if |a| > 0 && |b| > 0 && |c| > 0 && a[0] == b[0] && b[0] == c[0] {
      LessTransitive(a[1..], b[1..], c[1..]);
    }
  }

  /** Any two strings are equal or ordered one way. */
  lemma {:induction false} LessTotal(a: string, b: string)
    ensures a == b || Less(a, b) || Less(b, a)
    decreases |a|
  {
    if |a| > 0 && |b| > 0 && a[0] == b[0] {
      LessTotal(a[1..], b[1..]);
      assert a == [a[0]] + a[1..] && b == [b[0]] + b[1..];
    }
  }

  lemma LeqTransitive(a: string, b: string, c: string)
    ensures Leq(a, b) && Leq(b, c) ==> Leq(a, c)
  {
    LessTotal(a, b);
    LessTotal(b, c);
    LessTransitive(a, b, c);
    LessAsymmetric(a, c);
  }

  /** A string is never below one of its prefixes. */
  lemma {:induction false} PrefixNotAbove(p: string, u: string)
    ensures p <= u ==> !Less(u, p)
    decreases |p|
  {
    if |p| > 0 && p <= u {
      assert p[1..] <= u[1..];
      PrefixNotAbove(p[1..], u[1..]);
    }
  }

  /** A string below one that starts with p, and not itself starting with p,
      is below p. */
  lemma {:induction false} BelowPrefixed(p: string, u: string, v: string)
    requires p <= v && Less(u, v) && !(p <= u)
    ensures Less(u, p)
    decreases |u|
  {
    if |u| > 0 && u[0] == v[0] {
      assert p[1..] <= v[1..];
      BelowPrefixed(p[1..], u[1..], v[1..]);
    }
  }

  // ------------------------------------------------------ suffix arrays

  /** sa lists every start index of t exactly once, in strictly increasing
      order of the suffixes starting there. */
  ghost predicate IsSuffixArray(t: string, sa: seq<int>) {
    |sa| == |t|
    && (forall r :: 0 <= r < |sa| ==> 0 <= sa[r] < |t|)
    && (forall r, r' :: 0 <= r < r' < |sa| ==> Less(SuffixAt(t, sa, r), SuffixAt(t, sa, r')))
    && (forall k :: 0 <= k < |t| ==> k in sa)
  }

  /** The suffix of rank r. */
  function SuffixAt(t: string, sa: seq<int>, r: int): string
    requires 0 <= r < |sa| && 0 <= sa[r] <= |t|
  {
    t[sa[r]..]
  }

  /** Ranks compare like the suffixes at them. */
  lemma RankOrder(t: string, sa: seq<int>, p: int, q: int)
    requires IsSuffixArray(t, sa) && 0 <= p < |sa| && 0 <= q < |sa|
    ensures Less(t[sa[p]..], t[sa[q]..]) <==> p < q
    ensures p <= q ==> Leq(t[sa[p]..], t[sa[q]..])
  {
    if p < q {
      assert Less(SuffixAt(t, sa, p), SuffixAt(t, sa, q));
      LessAsymmetric(t[sa[p]..], t[sa[q]..]);
    } else if p == q {
      LessIrreflexive(t[sa[p]..]);
    } else {
      assert Less(SuffixAt(t, sa, q), SuffixAt(t, sa, p));
      LessAsymmetric(t[sa[q]..], t[sa[p]..]);
    }
  }

  /** Each index has one rank. */
  lemma SuffixArrayDistinct(t: string, sa: seq<int>)
    requires IsSuffixArray(t, sa)
    ensures Distinct(sa)
  {
    forall p, q | 0 <= p < q < |sa|
      ensures sa[p] != sa[q]
    {
      RankOrder(t, sa, p, q);
      LessIrreflexive(t[sa[p]..]);
    }
  }

  /** One suffix with the index it starts at (page.tsx lines 41-49). */
  datatype Suffix = Suffix(suffix: string, index: int)

  function AllSuffixes(t: string): (s: seq<Suffix>)
    ensures |s| == |t| && forall i :: 0 <= i < |t| ==> s[i] == Suffix(t[i..], i)
  {
    seq(|t|, i requires 0 <= i < |t| => Suffix(t[i..], i))
  }

  /** The index column of a list of suffixes (page.tsx line 73). */
  function Indices(s: seq<Suffix>): (sa: seq<int>)
    ensures |sa| == |s| && forall r :: 0 <= r < |s| ==> sa[r] == s[r].index
  {
    seq(|s|, r requires 0 <= r < |s| => s[r].index)
  }

  ghost predicate SortedFrom(s: seq<Suffix>, lo: int) {
    forall p, q :: 0 <= p && lo <= p < q < |s| ==> Leq(s[p].suffix, s[q].suffix)
  }

  ghost predicate BelowFrom(s: seq<Suffix>, lo: int) {
    forall p, q :: 0 <= p < lo <= q < |s| ==> Leq(s[p].suffix, s[q].suffix)
  }

  /** s[j] is at least every entry before it. */
  ghost predicate TopAt(s: seq<Suffix>, j: int) {
    0 <= j < |s| && forall p :: 0 <= p <= j ==> Leq(s[p].suffix, s[j].suffix)
  }

  /** The list after one comparison of the bubble sort. */
  function Exchanged(s: seq<Suffix>, j: int): seq<Suffix>
    requires 0 <= j < |s| - 1
  {
    if Less(s[j + 1].suffix, s[j].suffix) then s[j := s[j + 1]][j + 1 := s[j]] else s
  }

  /** The comparison leaves the larger of the two at j + 1 and keeps the
      sorted tail beyond lo. */
  lemma ExchangedKeeps(s: seq<Suffix>, j: int, lo: int)
    requires 0 <= j && j + 1 < lo <= |s|
    requires TopAt(s, j) && SortedFrom(s, lo) && BelowFrom(s, lo)
    ensures multiset(Exchanged(s, j)) == multiset(s)
    ensures TopAt(Exchanged(s, j), j + 1)
    ensures SortedFrom(Exchanged(s, j), lo) && BelowFrom(Exchanged(s, j), lo)
  {
    var s' := Exchanged(s, j);
    LessAsymmetric(s[j + 1].suffix, s[j].suffix);
    LessIrreflexive(s[j].suffix);
    LessIrreflexive(s[j + 1].suffix);
    forall p | 0 <= p <= j + 1
      ensures Leq(s'[p].suffix, s'[j + 1].suffix)
    {
      if p < j {
        LeqTransitive(s[p].suffix, s[j].suffix, s'[j + 1].suffix);
      }
    }
  }

  /** At the end of a pass the entry at lo joins the sorted tail. */
  lemma PassDone(s: seq<Suffix>, lo: int)
    requires 0 <= lo && TopAt(s, lo) && SortedFrom(s, lo + 1) && BelowFrom(s, lo + 1)
    ensures SortedFrom(s, lo) && BelowFrom(s, lo)
  {
  }

  /** One comparison, exchanging the two when they are out of order (page.tsx
      lines 59-60). */
  method CompareExchange(a: array<Suffix>, j: int)
    requires 0 <= j < a.Length - 1
    modifies a
    ensures a[..] == Exchanged(old(a[..]), j)
  {
    if Less(a[j + 1].suffix, a[j].suffix) {
      a[j], a[j + 1] := a[j + 1], a[j];
    }
  }

  /** One pass of the outer loop (page.tsx lines 58-70). */
  method SuffixPass(a: array<Suffix>, i: int)
    requires 0 <= i < a.Length - 1
    requires SortedFrom(a[..], a.Length - i) && BelowFrom(a[..], a.Length - i)
    modifies a
    ensures multiset(a[..]) == multiset(old(a[..]))
    ensures SortedFrom(a[..], a.Length - i - 1) && BelowFrom(a[..], a.Length - i - 1)
  {
    var n := a.Length;
    LessIrreflexive(a[0].suffix);
    for j := 0 to n - i - 1
      invariant multiset(a[..]) == multiset(old(a[..]))
      invariant TopAt(a[..], j) && SortedFrom(a[..], n - i) && BelowFrom(a[..], n - i)
    {
      ExchangedKeeps(a[..], j, n - i);
      CompareExchange(a, j);
    }
    PassDone(a[..], n - i - 1);
  }

  /** The bubble sort of page.tsx lines 57-71. */
  method SortSuffixes(a: array<Suffix>)
    modifies a
    ensures multiset(a[..]) == multiset(old(a[..]))
    ensures SortedFrom(a[..], 0)
  {
    var n := a.Length;
    var i := 0;
    while i < n - 1
      invariant 0 <= i && (n > 0 ==> i <= n - 1)
      invariant multiset(a[..]) == multiset(old(a[..]))
      invariant SortedFrom(a[..], n - i) && BelowFrom(a[..], n - i)
    {
      SuffixPass(a, i);
      i := i + 1;
    }
  }

  /** Sorting the suffixes and keeping their indices gives the suffix array:
      the suffixes have different lengths, so the non-strict order of the sort
      is strict. */
  lemma SortedSuffixesGiveSuffixArray(t: string, s: seq<Suffix>)
    requires multiset(s) == multiset(AllSuffixes(t)) && SortedFrom(s, 0)
    ensures IsSuffixArray(t, Indices(s))
  {
    var all := AllSuffixes(t);
    assert Distinct(all);
    PermutedDistinct(all, s);
    assert |s| == |t| by {
      calc {
        |s|;
        |multiset(s)|;
        |multiset(all)|;
        |t|;
      }
    }
    forall r | 0 <= r < |s|
      ensures 0 <= s[r].index < |t| && s[r].suffix == t[s[r].index..]
    {
      assert s[r] in multiset(all);
    }
    var sa := Indices(s);
    forall r, r' | 0 <= r < r' < |sa|
      ensures Less(SuffixAt(t, sa, r), SuffixAt(t, sa, r'))
    {
      assert s[r] != s[r'];
      assert |t[sa[r]..]| != |t[sa[r']..]|;
      LessTotal(t[sa[r]..], t[sa[r']..]);
    }
    forall k | 0 <= k < |t|
      ensures k in sa
    {
      assert all[k] in multiset(s);
      var r :| 0 <= r < |s| && s[r] == all[k];
      assert sa[r] == k;
    }
  }

  /** The suffixes of t and their sorted order (page.tsx lines 39-74). */
  method BuildSuffixArray(t: string) returns (sa: seq<int>)
    ensures IsSuffixArray(t, sa)
  {
    var n := |t|;
    var suffixes: seq<Suffix> := [];
    for i := 0 to n
      invariant |suffixes| == i
      invariant forall k :: 0 <= k < i ==> suffixes[k] == Suffix(t[k..], k)
    {
      suffixes := suffixes + [Suffix(t[i..], i)];
    }
    assert suffixes == AllSuffixes(t);
    var sorted := new Suffix[n](k requires 0 <= k < n => suffixes[k]);
    assert sorted[..] == suffixes;
    SortSuffixes(sorted);
    sa := Indices(sorted[..]);
    SortedSuffixesGiveSuffixArray(t, sorted[..]);
  }

  // ------------------------------------------------------ LCP array

  /** u and v agree on their first h characters. */
  ghost predicate Agree(u: string, v: string, h: int) {
    0 <= h <= |u| && h <= |v| && forall k :: 0 <= k < h ==> u[k] == v[k]
  }

  /** h is the length of the longest common prefix of u and v. */
  ghost predicate IsLcp(u: string, v: string, h: int) {
    Agree(u, v, h) && (h < |u| && h < |v| ==> u[h] != v[h])
  }

  lemma LcpIsLongest(u: string, v: string, h: int, h': int)
    requires IsLcp(u, v, h) && Agree(u, v, h')
    ensures h' <= h
  {
  }

  /** rank inverts the suffix array (page.tsx lines 87-89). */
  ghost predicate IsRank(sa: seq<int>, rank: seq<int>) {
    |rank| == |sa|
    && (forall k :: 0 <= k < |rank| ==> 0 <= rank[k] < |sa| && sa[rank[k]] == k)
    && (forall r :: 0 <= r < |sa| ==> 0 <= sa[r] < |rank| && rank[sa[r]] == r)
  }

  method BuildRank(t: string, sa: seq<int>) returns (rank: seq<int>)
    requires IsSuffixArray(t, sa)
    ensures IsRank(sa, rank)
  {
    var n := |sa|;
    SuffixArrayDistinct(t, sa);
    var ranks := new int[n](_ => 0);
    for i := 0 to n
      invariant forall r :: 0 <= r < i ==> ranks[sa[r]] == r
    {
      ranks[sa[i]] := i;
    }
    rank := ranks[..];
    forall k | 0 <= k < n
      ensures 0 <= rank[k] < n && sa[rank[k]] == k
    {
      assert k in sa;
    }
  }

  /** Two suffixes that agree on h >= 1 characters still agree, one shorter,
      and keep their order, after dropping the first character. */
  lemma AgreeTails(y: string, x: string, h: int)
    requires Less(y, x) && Agree(y, x, h) && h >= 1
    ensures Less(y[1..], x[1..]) && Agree(y[1..], x[1..], h - 1)
  {
  }

  /** A string between y and x agrees with x as far as y does. */
  lemma {:induction false} SqueezedAgree(y: string, z: string, x: string, h: int)
    requires Leq(y, z) && Leq(z, x) && Agree(y, x, h)
    ensures Agree(z, x, h)
    decreases h
  {
    if h > 0 {
      assert y[0] == x[0] && |z| > 0;
      assert z[0] == x[0];
      SqueezedAgree(y[1..], z[1..], x[1..], h - 1);
      forall k | 0 <= k < h
        ensures z[k] == x[k]
      {
        if k > 0 {
          assert z[k] == z[1..][k - 1];
        }
      }
    }
  }

  /** What Kasai's loop knows on entering index i with the carried length h:
      the suffix at i agrees with the one ranked just before it for h
      characters, and h is 0 at the suffix of rank 0. */
  ghost predicate Carried(t: string, sa: seq<int>, rank: seq<int>, i: int, h: int) {
    IsRank(sa, rank) && |sa| == |t| && 0 <= i < |t| && 0 <= h
    && (rank[i] > 0 ==> Agree(t[i..], t[sa[rank[i] - 1]..], h))
    && (rank[i] == 0 ==> h == 0)
  }

  /** Dropping the first character of the suffix at i and of its predecessor
      j keeps their order and all but one character of their agreement. */
  lemma KasaiTails(t: string, sa: seq<int>, rank: seq<int>, i: int, h: int)
    requires IsSuffixArray(t, sa) && IsRank(sa, rank)
    requires 0 <= i < |t| - 1 && rank[i] > 0 && Agree(t[i..], t[sa[rank[i] - 1]..], h) && h >= 2
    ensures sa[rank[i] - 1] + 1 < |t|
    ensures Less(t[sa[rank[i] - 1] + 1..], t[i + 1..]) && Agree(t[sa[rank[i] - 1] + 1..], t[i + 1..], h - 1)
  {
    var j := sa[rank[i] - 1];
    assert t[i..][1..] == t[i + 1..] && t[j..][1..] == t[j + 1..];
    RankOrder(t, sa, rank[i] - 1, rank[i]);
    AgreeTails(t[j..], t[i..], h);
  }

  /** If the suffix at y is below the one at x and agrees with it for h
      characters, so does the suffix ranked just before x. */
  lemma PredecessorAgrees(t: string, sa: seq<int>, rank: seq<int>, y: int, x: int, h: int)
    requires IsSuffixArray(t, sa) && IsRank(sa, rank) && 0 <= y < |t| && 0 <= x < |t|
    requires Less(t[y..], t[x..]) && Agree(t[y..], t[x..], h)
    ensures rank[x] > 0 && Agree(t[x..], t[sa[rank[x] - 1]..], h)
  {
    RankOrder(t, sa, rank[y], rank[x]);
    var z := sa[rank[x] - 1];
    RankOrder(t, sa, rank[y], rank[x] - 1);
    RankOrder(t, sa, rank[x] - 1, rank[x]);
    LessAsymmetric(t[z..], t[x..]);
    SqueezedAgree(t[y..], t[z..], t[x..], h);
  }

  /** The heart of Kasai's method: going from i to i + 1 loses at most one
      character of the common prefix with the previous suffix in order. */
  lemma KasaiNext(t: string, sa: seq<int>, rank: seq<int>, i: int, h: int)
    requires IsSuffixArray(t, sa) && IsRank(sa, rank)
    requires 0 <= i < |t| && rank[i] > 0 && Agree(t[i..], t[sa[rank[i] - 1]..], h)
    ensures i + 1 < |t| ==> Carried(t, sa, rank, i + 1, Max(h - 1, 0))
  {
    if h >= 2 && i + 1 < |t| {
      KasaiTails(t, sa, rank, i, h);
      PredecessorAgrees(t, sa, rank, sa[rank[i] - 1] + 1, i + 1, h - 1);
    }
  }

  /** Entries of the LCP array for the suffixes starting before i. */
  ghost predicate LcpDone(t: string, sa: seq<int>, lcp: seq<int>, i: int) {
    |lcp| == |t| == |sa| && (forall r :: 0 <= r < |sa| ==> 0 <= sa[r] < |t|)
    && (|t| > 0 ==> lcp[0] == 0)
    && forall r :: 1 <= r < |t| && sa[r] < i ==> IsLcp(t[sa[r]..], t[sa[r - 1]..], lcp[r])
  }

  lemma LcpDoneStep(t: string, sa: seq<int>, rank: seq<int>, lcp: seq<int>, i: int, v: int)
    requires IsRank(sa, rank) && LcpDone(t, sa, lcp, i) && 0 <= i < |t|
    requires rank[i] > 0 ==> IsLcp(t[i..], t[sa[rank[i] - 1]..], v)
    ensures LcpDone(t, sa, if rank[i] > 0 then lcp[rank[i] := v] else lcp, i + 1)
  {
  }

  /** The character-by-character extension of page.tsx lines 95-97. */
  method ExtendCommon(t: string, i: int, j: int, h: int) returns (h': int)
    requires 0 <= i < |t| && 0 <= j < |t| && Agree(t[i..], t[j..], h)
    ensures IsLcp(t[i..], t[j..], h') && h <= h'
  {
    h' := h;
    while i + h' < |t| && j + h' < |t| && t[i + h'] == t[j + h']
      invariant h <= h' && Agree(t[i..], t[j..], h')
      decreases |t| - h'
    {
      h' := h' + 1;
    }
  }

  /** Entry r of lcp is the longest common prefix of the suffixes ranked r
      and r - 1; entry 0 is 0. */
  ghost predicate IsLcpArray(t: string, sa: seq<int>, lcp: seq<int>)
    requires IsSuffixArray(t, sa)
  {
    |lcp| == |t| && (|t| > 0 ==> lcp[0] == 0)
    && forall r :: 1 <= r < |t| ==> IsLcp(t[sa[r]..], t[sa[r - 1]..], lcp[r])
  }

  /** One iteration of Kasai's loop (page.tsx lines 93-100). */
  method KasaiStep(t: string, sa: seq<int>, rank: seq<int>, lcps: array<int>, i: int, h: int)
    returns (h': int)
    requires IsSuffixArray(t, sa) && LcpDone(t, sa, lcps[..], i) && Carried(t, sa, rank, i, h)
    modifies lcps
    ensures LcpDone(t, sa, lcps[..], i + 1)
    ensures i + 1 < |t| ==> Carried(t, sa, rank, i + 1, h')
  {
    ghost var before := lcps[..];
    h' := h;
    if rank[i] == 0 {
      LcpDoneStep(t, sa, rank, before, i, h);
    } else {
      var j := sa[rank[i] - 1];
      h' := ExtendCommon(t, i, j, h');
      lcps[rank[i]] := h';
      LcpDoneStep(t, sa, rank, before, i, h');
      assert lcps[..] == before[rank[i] := h'];
      KasaiNext(t, sa, rank, i, h');
      if h' > 0 {
        h' := h' - 1;
      }
    }
  }

  /** Kasai's LCP array (page.tsx lines 81-104). */
  method BuildLcpArray(t: string, sa: seq<int>) returns (lcp: seq<int>)
    requires IsSuffixArray(t, sa)
    ensures IsLcpArray(t, sa, lcp)
  {
    var n := |t|;
    var lcps := new int[n](_ => 0);
    var rank := BuildRank(t, sa);
    var h := 0;
    for i := 0 to n
      invariant LcpDone(t, sa, lcps[..], i)
      invariant i < n ==> Carried(t, sa, rank, i, h)
    {
      h := KasaiStep(t, sa, rank, lcps, i, h);
    }
    lcp := lcps[..];
  }

  // ------------------------------------------------------ search

  /** Where a suffix s falls for the binary searches of page.tsx lines
      136-148 and 168-180: 0 below the pattern, 1 starting with it, 2 above. */
  function Side(s: string, p: string): int {
    if p <= s then 1 else if Less(s, p) then 0 else 2
  }

  lemma SideMonotone(p: string, u: string, v: string)
    requires Less(u, v)
    ensures Side(u, p) <= Side(v, p)
  {
    if Less(v, p) {
      LessTransitive(u, v, p);
    }
    PrefixNotAbove(p, u);
    if p <= v && !(p <= u) {
      BelowPrefixed(p, u, v);
    }
  }

  function SideAt(t: string, sa: seq<int>, p: string, r: int): int
    requires 0 <= r < |sa| && 0 <= sa[r] <= |t|
  {
    Side(t[sa[r]..], p)
  }

  /** Along a suffix array the sides never go down, so the suffixes starting
      with the pattern form one block of ranks. */
  lemma SidesSorted(t: string, sa: seq<int>, p: string)
    requires IsSuffixArray(t, sa)
    ensures forall r, r' :: 0 <= r <= r' < |sa| ==> SideAt(t, sa, p, r) <= SideAt(t, sa, p, r')
  {
    forall r, r' | 0 <= r < r' < |sa|
      ensures SideAt(t, sa, p, r) <= SideAt(t, sa, p, r')
    {
      RankOrder(t, sa, r, r');
      SideMonotone(p, t[sa[r]..], t[sa[r']..]);
    }
  }

  /** The sides around rank m. */
  lemma SidesAround(t: string, sa: seq<int>, p: string, m: int)
    requires IsSuffixArray(t, sa) && 0 <= m < |sa|
    ensures forall r :: 0 <= r <= m ==> 0 <= SideAt(t, sa, p, r) <= SideAt(t, sa, p, m)
    ensures forall r :: m <= r < |sa| ==> SideAt(t, sa, p, m) <= SideAt(t, sa, p, r) <= 2
  {
    SidesSorted(t, sa, p);
  }

  /** The first rank whose suffix starts with p, or -1 (page.tsx lines
      131-148). */
  method LeftmostMatch(t: string, sa: seq<int>, p: string) returns (leftBound: int)
    requires IsSuffixArray(t, sa)
    ensures leftBound == -1 ==> forall r :: 0 <= r < |sa| ==> SideAt(t, sa, p, r) != 1
    ensures leftBound != -1 ==> 0 <= leftBound < |sa| && SideAt(t, sa, p, leftBound) == 1
    ensures forall r :: 0 <= r < leftBound ==> SideAt(t, sa, p, r) == 0
  {
    var left, right := 0, |sa| - 1;
    leftBound := -1;
    while left <= right
      invariant 0 <= left <= right + 1 <= |sa|
      invariant forall r :: 0 <= r < left ==> SideAt(t, sa, p, r) == 0
      invariant forall r :: right < r < |sa| ==> SideAt(t, sa, p, r) >= 1
      invariant leftBound == -1 ==> forall r :: right < r < |sa| ==> SideAt(t, sa, p, r) == 2
      invariant leftBound != -1 ==> leftBound == right + 1 < |sa| && SideAt(t, sa, p, leftBound) == 1
      decreases right - left
    {
      var mid := (left + right) / 2;
      var suffix := t[sa[mid]..];
      SidesAround(t, sa, p, mid);
      if p <= suffix {
        leftBound := mid;
        right := mid - 1;
      } else if Less(suffix, p) {
        left := mid + 1;
      } else {
        right := mid - 1;
      }
    }
  }

  /** The last rank whose suffix starts with p, or -1 (page.tsx lines
      164-180). */
  method RightmostMatch(t: string, sa: seq<int>, p: string) returns (rightBound: int)
    requires IsSuffixArray(t, sa)
    ensures rightBound == -1 ==> forall r :: 0 <= r < |sa| ==> SideAt(t, sa, p, r) != 1
    ensures rightBound != -1 ==> 0 <= rightBound < |sa| && SideAt(t, sa, p, rightBound) == 1
    ensures rightBound != -1 ==> forall r :: rightBound < r < |sa| ==> SideAt(t, sa, p, r) == 2
  {
    var left, right := 0, |sa| - 1;
    rightBound := -1;
    while left <= right
      invariant 0 <= left <= right + 1 <= |sa|
      invariant forall r :: 0 <= r < left ==> SideAt(t, sa, p, r) <= 1
      invariant forall r :: right < r < |sa| ==> SideAt(t, sa, p, r) == 2
      invariant rightBound == -1 ==> forall r :: 0 <= r < left ==> SideAt(t, sa, p, r) == 0
      invariant rightBound != -1 ==> 0 <= rightBound == left - 1 && SideAt(t, sa, p, rightBound) == 1
      decreases right - left
    {
      var mid := (left + right) / 2;
      var suffix := t[sa[mid]..];
      SidesAround(t, sa, p, mid);
      if p <= suffix {
        rightBound := mid;
        left := mid + 1;
      } else if Less(suffix, p) {
        left := mid + 1;
      } else {
        right := mid - 1;
      }
    }
  }

  lemma StartsWithOccurs(t: string, p: string, k: int)
    requires 0 <= k <= |t|
    ensures p <= t[k..] <==> Occurs(t, p, k)
  {
    if Occurs(t, p, k) {
      assert t[k..][..|p|] == p;
    }
  }

  /** When no suffix starts with p, p occurs nowhere. */
  lemma NoMatches(t: string, sa: seq<int>, p: string)
    requires IsSuffixArray(t, sa) && |p| > 0
    requires forall r :: 0 <= r < |sa| ==> SideAt(t, sa, p, r) != 1
    ensures forall k :: !Occurs(t, p, k)
  {
    forall k | 0 <= k < |t|
      ensures !Occurs(t, p, k)
    {
      StartsWithOccurs(t, p, k);
      assert k in sa;
      var r :| 0 <= r < |sa| && sa[r] == k;
      assert SideAt(t, sa, p, r) != 1;
    }
  }

  /** Once a first match is found, a last one exists at or after it. */
  lemma BoundsMeet(t: string, sa: seq<int>, p: string, lo: int, hi: int)
    requires 0 <= lo < |sa| && 0 <= sa[lo] <= |t| && SideAt(t, sa, p, lo) == 1
    requires hi == -1 ==> forall r :: 0 <= r < |sa| ==> 0 <= sa[r] <= |t| && SideAt(t, sa, p, r) != 1
    requires hi != -1 ==> 0 <= hi < |sa| && forall r :: hi < r < |sa| ==> 0 <= sa[r] <= |t| && SideAt(t, sa, p, r) == 2
    ensures lo <= hi < |sa|
  {
  }

  /** The ranks from the first to the last match hold exactly the occurrences. */
  lemma MatchBlock(t: string, sa: seq<int>, p: string, lo: int, hi: int)
    requires IsSuffixArray(t, sa) && |p| > 0 && 0 <= lo <= hi < |sa|
    requires SideAt(t, sa, p, lo) == 1 && SideAt(t, sa, p, hi) == 1
    requires forall r :: 0 <= r < lo ==> SideAt(t, sa, p, r) == 0
    requires forall r :: hi < r < |sa| ==> SideAt(t, sa, p, r) == 2
    ensures forall k :: k in sa[lo..hi + 1] <==> Occurs(t, p, k)
  {
    SidesSorted(t, sa, p);
    var block := sa[lo..hi + 1];
    forall k | k in block
      ensures Occurs(t, p, k)
    {
      var r :| lo <= r <= hi && sa[r] == k;
      assert SideAt(t, sa, p, r) == 1;
      StartsWithOccurs(t, p, k);
    }
    forall k | Occurs(t, p, k)
      ensures k in block
    {
      StartsWithOccurs(t, p, k);
      assert k in sa;
      var r :| 0 <= r < |sa| && sa[r] == k;
      assert SideAt(t, sa, p, r) == 1;
      assert block[r - lo] == k;
    }
  }

  /** A stretch of consecutive ranks lists its suffixes in increasing order. */
  lemma BlockOrdered(t: string, sa: seq<int>, lo: int, hi: int)
    requires IsSuffixArray(t, sa) && 0 <= lo <= hi <= |sa|
    ensures forall k :: k in sa[lo..hi] ==> 0 <= k < |t|
    ensures forall i, j :: 0 <= i < j < hi - lo ==> Less(t[sa[lo..hi][i]..], t[sa[lo..hi][j]..])
  {
    forall i, j | 0 <= i < j < hi - lo
      ensures Less(t[sa[lo..hi][i]..], t[sa[lo..hi][j]..])
    {
      assert sa[lo..hi][i] == sa[lo + i] && sa[lo..hi][j] == sa[lo + j];
      RankOrder(t, sa, lo + i, lo + j);
    }
  }

  class SuffixArrayBuilder {
    const text: string
    const suffixArray: seq<int>
    const lcpArray: seq<int>

    ghost predicate Valid() {
      IsSuffixArray(text, suffixArray) && |lcpArray| == |text|
    }

    /** Appends the terminator and builds both arrays (page.tsx lines 34-37,
        76-78). */
    constructor (input: string)
      ensures text == input + "$" && Valid()
      ensures IsLcpArray(text, suffixArray, lcpArray)
    {
      var sa := BuildSuffixArray(input + "$");
      var lcp := BuildLcpArray(input + "$", sa);
      text, suffixArray, lcpArray := input + "$", sa, lcp;
    }

    /** The start indices of the pattern in the terminated text, in the order
        of their suffixes (page.tsx lines 124-203); none for the empty
        pattern. */
    method Search(pattern: string) returns (results: seq<int>)
      requires Valid()
      ensures |pattern| == 0 ==> results == []
      ensures forall i :: 0 <= i < |results| ==> 0 <= results[i] < |text|
      ensures forall k :: k in results <==> |pattern| > 0 && Occurs(text, pattern, k)
      ensures forall i, j :: 0 <= i < j < |results| ==> Less(text[results[i]..], text[results[j]..])
    {
      if |pattern| == 0 {
        return [];
      }
      var sa := suffixArray;
      var leftBound := LeftmostMatch(text, sa, pattern);
      results := [];
      if leftBound == -1 {
        NoMatches(text, sa, pattern);
        return;
      }
      var rightBound := RightmostMatch(text, sa, pattern);
      BoundsMeet(text, sa, pattern, leftBound, rightBound);
      for i := leftBound to rightBound + 1
        invariant results == sa[leftBound..i]
      {
        results := results + [sa[i]];
      }
      MatchBlock(text, sa, pattern, leftBound, rightBound);
      BlockOrdered(text, sa, leftBound, rightBound + 1);
    }
  }
}
