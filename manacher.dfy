/** The Manacher screen: the text is padded with '#' between and around its
    characters, every centre of the padded string gets the radius of the
    longest palindrome around it (reusing the mirror image inside the
    rightmost palindrome found so far), and the radii are converted back into
    palindromic substrings of the text. */
module ManacherPage {
  import opened Common

  // ------------------------------------------------------------ padding

  /** text.split('').join('#'). */
  function Join(t: string): (r: string)
    ensures |t| > 0 ==> |r| == 2 * |t| - 1
    ensures |t| == 0 ==> r == []
    ensures forall k :: 0 <= k < |r| ==> r[k] == if k % 2 == 0 then t[k / 2] else '#'
  {
    if |t| <= 1 then t else [t[0], '#'] + Join(t[1..])
  }

  /** The padded string: '#' + text.split('').join('#') + '#'. */
  function Preprocess(t: string): string {
    "#" + Join(t) + "#"
  }

  /** The character at position k of the padded text. */
  function Cell(t: string, k: int): char
    requires 0 <= k <= 2 * |t|
  {
    if k % 2 == 0 then '#' else t[(k - 1) / 2]
  }

  /** s is t with '#' at every even position and t's characters at the odd ones. */
  ghost predicate Layout(t: string, s: string) {
    |s| == 2 * |t| + 1 && forall k :: 0 <= k < |s| ==> s[k] == Cell(t, k)
  }

  /** A non-empty text pads to 2n+1 characters; the empty text pads to "##"
      because joining no characters gives the empty string. */
  lemma PreprocessLayout(t: string)
    ensures |t| > 0 ==> Layout(t, Preprocess(t))
    ensures |t| == 0 ==> Preprocess(t) == "##"
  {
    var s := Preprocess(t);
    if |t| > 0 {
      forall k | 0 <= k < |s|
        ensures s[k] == Cell(t, k)
      {
        if 0 < k < |s| - 1 {
          assert s[k] == Join(t)[k - 1];
        }
      }
    }
  }

  /** The characters at the odd positions: the inverse of the padding. */
  function Strip(s: string): string {
    if |s| == 0 then "" else seq((|s| - 1) / 2, a requires 0 <= a < (|s| - 1) / 2 => s[2 * a + 1])
  }

  lemma StripPreprocess(t: string)
    ensures Strip(Preprocess(t)) == t
  {
    PreprocessLayout(t);
    if |t| > 0 {
      var s := Preprocess(t);
      forall a | 0 <= a < |t|
        ensures Strip(s)[a] == t[a]
      {
        assert s[2 * a + 1] == Cell(t, 2 * a + 1);
      }
    }
  }

  // ------------------------------------------------------------ radii

  /** s[i-r..i+r] is a palindrome. */
  predicate PalAround(s: string, i: int, r: int) {
    0 <= r <= i && i + r < |s| && forall k :: i - r <= k <= i ==> s[k] == s[2 * i - k]
  }

  /** r is the radius the expansion loop stops at: one more step would leave
      the string or compare two different characters. */
  predicate IsRadius(s: string, i: int, r: int) {
    PalAround(s, i, r) && (i + r + 1 < |s| && i - r - 1 >= 0 ==> s[i + r + 1] != s[i - r - 1])
  }

  ghost predicate IsRadii(s: string, p: seq<int>) {
    |p| == |s| && forall i :: 0 <= i < |s| ==> IsRadius(s, i, p[i])
  }

  /** The radius found is the largest palindrome radius at that centre. */
  lemma RadiusIsLongest(s: string, i: int, r: int, r': int)
    requires IsRadius(s, i, r) && PalAround(s, i, r')
    ensures r' <= r
  {
  }

  /** Inside the rightmost palindrome, around center with right end
      rightBound, the radius at the mirror index cut off at the bound is a
      palindrome radius that expansion may start from (page.tsx lines 68-73). */
  lemma MirrorStart(s: string, i: int, center: int, rightBound: int, pm: int)
    requires PalAround(s, center, rightBound - center) && center < i < rightBound
    requires PalAround(s, 2 * center - i, pm)
    ensures PalAround(s, i, Min(rightBound - i, pm))
  {
    var m, r0 := 2 * center - i, Min(rightBound - i, pm);
    forall k | i - r0 <= k <= i
      ensures s[k] == s[2 * i - k]
    {
      var d := i - k;
      var x := m - d;
      assert s[x] == s[2 * center - x];
      if k <= center {
        assert s[k] == s[2 * center - k];
      } else {
        var y := 2 * center - k;
        assert s[y] == s[2 * center - y];
      }
      assert s[m - d] == s[2 * m - (m - d)];
    }
  }

  /** The rightmost palindrome after centre i has been expanded (page.tsx
      lines 109-122): the bound never moves left, and the centre moves to i
      exactly when i's palindrome reaches past the old bound. */
  function NextBound(s: string, i: int, r: int, center: int, rightBound: int): (cb: (int, int))
    requires PalAround(s, center, rightBound - center) && PalAround(s, i, r)
    ensures PalAround(s, cb.0, cb.1 - cb.0)
    ensures cb.1 == Max(rightBound, i + r)
    ensures cb.0 == if i + r > rightBound then i else center
  {
    if i + r > rightBound then (i, i + r) else (center, rightBound)
  }

  /** One centre: the mirror start, then the expansion loop (page.tsx lines 68-94). */
  method ExpandAt(s: string, p: array<int>, i: int, center: int, rightBound: int)
    requires p.Length == |s| && 0 <= center <= i < |s| && (center == i ==> rightBound <= i)
    requires PalAround(s, center, rightBound - center) && p[i] == 0
    requires forall j :: 0 <= j < i ==> IsRadius(s, j, p[j])
    modifies p
    ensures p[..] == old(p[..])[i := p[i]]
    ensures IsRadius(s, i, p[i])
  {
    if i < rightBound {
      var mirrorIndex := 2 * center - i;
      MirrorStart(s, i, center, rightBound, p[mirrorIndex]);
      p[i] := Min(rightBound - i, p[mirrorIndex]);
    }
    while i + p[i] + 1 < |s| && i - p[i] - 1 >= 0 && s[i + p[i] + 1] == s[i - p[i] - 1]
      invariant p[..] == old(p[..])[i := p[i]]
      invariant PalAround(s, i, p[i])
      decreases |s| - p[i]
    {
      var k := i - p[i] - 1;
      assert s[k] == s[2 * i - k];
      p[i] := p[i] + 1;
    }
  }

  // ------------------------------------------------------------ the class

  /** The page's ManacherAlgorithm: the text, its padded form and the radius
      array, filled once by the constructor. */
  class ManacherAlgorithm {
    const originalText: string
    const processedText: string
    const palindromeArray: array<int>

    ghost predicate Valid()
      reads palindromeArray
    {
      processedText == Preprocess(originalText) && IsRadii(processedText, palindromeArray[..])
    }

    /** constructor(text): pads the text, zeroes the radii and runs
        runManacher. */
    constructor (text: string)
      ensures originalText == text && processedText == Preprocess(text)
      ensures fresh(palindromeArray) && Valid()
    {
      originalText := text;
      processedText := Preprocess(text);
      palindromeArray := new int[|Preprocess(text)|](_ => 0);
      new;
      RunManacher();
    }

    /** runManacher: every centre from left to right starts from its mirror
        inside the rightmost palindrome found so far, is expanded, and may
        become the new rightmost palindrome. Afterwards every entry is the
        maximal radius at its centre. */
    method RunManacher()
      requires palindromeArray.Length == |processedText| > 0
      requires forall j :: 0 <= j < palindromeArray.Length ==> palindromeArray[j] == 0
      modifies palindromeArray
      ensures IsRadii(processedText, palindromeArray[..])
    {
      var n := |processedText|;
      var center, rightBound := 0, 0;
      for i := 0 to n
        invariant 0 <= center <= rightBound < n
        invariant center < i || (center == 0 && rightBound == 0)
        invariant PalAround(processedText, center, rightBound - center)
        invariant forall j :: 0 <= j < i ==> IsRadius(processedText, j, palindromeArray[j])
        invariant forall j :: i <= j < n ==> palindromeArray[j] == 0
      {
        ExpandAt(processedText, palindromeArray, i, center, rightBound);
        center, rightBound := NextBound(processedText, i, palindromeArray[i], center, rightBound).0,
                              NextBound(processedText, i, palindromeArray[i], center, rightBound).1;
      }
    }

    /** extractPalindromes: the collected palindromes without repeated
        (start, end) pairs, longest first, each a substring of the text. */
    method ExtractPalindromes() returns (palindromes: seq<Palindrome>)
      requires Valid()
      ensures palindromes == Extracted(AsWritten, palindromeArray[..], originalText)
      ensures LongestFirst(palindromes) && DistinctKeys(palindromes)
      ensures forall x :: x in palindromes ==> WellFormed(x, originalText)
    {
      var found := CollectPalindromes(AsWritten, palindromeArray, originalText);
      palindromes := SortByLength(Unique(found));
      ExtractedShape(AsWritten, palindromeArray[..], originalText);
    }

    /** getLongestPalindrome: the first palindrome extracted, or "" when
        there is none. With the page's conversion it need not be a
        palindrome (EvenCentreMisreported). */
    method GetLongestPalindrome() returns (longest: string)
      requires Valid()
      ensures longest == Longest(Extracted(AsWritten, palindromeArray[..], originalText))
      ensures exists a, b :: 0 <= a <= b <= |originalText| && longest == originalText[a..b]
    {
      var palindromes := ExtractPalindromes();
      if |palindromes| > 0 {
        longest := palindromes[0].text;
        assert palindromes[0] in palindromes;
      } else {
        longest := "";
        assert originalText[0..0] == longest;
      }
    }

    /** getLongestPalindrome with the corrected conversion: a longest
        palindromic substring of the text. */
    method GetLongestPalindromeCorrected() returns (longest: string)
      requires Valid()
      ensures IsPalindrome(longest)
      ensures exists a, b :: 0 <= a <= b <= |originalText| && longest == originalText[a..b]
      ensures forall a, b :: 0 <= a < b <= |originalText| && IsPalindrome(originalText[a..b]) ==> b - a <= |longest|
    {
      var found := CollectPalindromes(Corrected, palindromeArray, originalText);
      var palindromes := SortByLength(Unique(found));
      longest := if |palindromes| > 0 then palindromes[0].text else "";
      CorrectedLongest(originalText, palindromeArray[..]);
    }
  }

  // ------------------------------------------------------------ back to the text

  datatype Palindrome = Palindrome(start: int, end: int, length: int, text: string)

  /** The substring t[start..end] (inclusive) together with its bounds and length. */
  ghost predicate WellFormed(x: Palindrome, t: string) {
    0 <= x.start <= x.end < |t| && x.length == x.end - x.start + 1 && x.text == t[x.start..x.end + 1]
  }

  predicate IsPalindrome(w: string) {
    forall q :: 0 <= q < |w| ==> w[q] == w[|w| - 1 - q]
  }

  /** The conversion of a centre and radius into text coordinates: as the page
      writes it (centre floor(i/2) and radius floor((P+1)/2) for every padded
      centre), or with the even centres' palindromes placed correctly. */
  datatype Conversion = AsWritten | Corrected

  function Convert(rule: Conversion, i: int, p: int, t: string): (r: Option<Palindrome>)
    ensures r.Some? ==> WellFormed(r.value, t)
  {
    if p <= 0 then None
    else
      var start := if rule == AsWritten then i / 2 - (p + 1) / 2 + 1 else (i - p) / 2;
      var end := if rule == AsWritten then i / 2 + (p + 1) / 2 - 1 else (i + p) / 2 - 1;
      if rule == AsWritten && (p + 1) / 2 <= 0 then None
      else if 0 <= start <= end < |t| then Some(Palindrome(start, end, end + 1 - start, t[start..end + 1]))
      else None
  }

  /** The palindromes the extraction loop collects from the radii p[..hi). */
  function Raw(rule: Conversion, p: seq<int>, t: string, hi: int): seq<Palindrome>
    requires 0 <= hi <= |p|
  {
    if hi == 0 then []
    else Raw(rule, p, t, hi - 1) + (match Convert(rule, hi - 1, p[hi - 1], t) case Some(x) => [x] case None => [])
  }

  /** Every converted centre is collected ... */
  lemma {:induction false} RawMember(rule: Conversion, p: seq<int>, t: string, hi: int, i: int)
    requires 0 <= i < hi <= |p| && Convert(rule, i, p[i], t).Some?
    ensures Convert(rule, i, p[i], t).value in Raw(rule, p, t, hi)
  {
    if i < hi - 1 {
      RawMember(rule, p, t, hi - 1, i);
    }
  }

  /** ... and everything collected comes from a converted centre. */
  lemma {:induction false} RawOrigin(rule: Conversion, p: seq<int>, t: string, hi: int, x: Palindrome) returns (i: int)
    requires 0 <= hi <= |p| && x in Raw(rule, p, t, hi)
    ensures 0 <= i < hi && Convert(rule, i, p[i], t) == Some(x)
  {
    if x in Raw(rule, p, t, hi - 1) {
      i := RawOrigin(rule, p, t, hi - 1, x);
    } else {
      i := hi - 1;
    }
  }

  /** The extraction loop (page.tsx lines 139-155). */
  method CollectPalindromes(rule: Conversion, p: array<int>, t: string) returns (found: seq<Palindrome>)
    ensures found == Raw(rule, p[..], t, p.Length)
  {
    found := [];
    for i := 0 to p.Length
      invariant found == Raw(rule, p[..], t, i)
    {
      match Convert(rule, i, p[i], t)
      case Some(x) => found := found + [x];
      case None =>
    }
  }

  // ------------------------------------------------------------ de-duplication and ordering

  function Key(x: Palindrome): (int, int) {
    (x.start, x.end)
  }

  function KeySet(xs: seq<Palindrome>): set<(int, int)> {
    set x | x in xs :: Key(x)
  }

  ghost predicate DistinctKeys(xs: seq<Palindrome>) {
    forall i, j :: 0 <= i < j < |xs| ==> Key(xs[i]) != Key(xs[j])
  }

  /** The filter that keeps the first palindrome of every (start, end) pair
      (page.tsx lines 158-160). */
  function Unique(xs: seq<Palindrome>): seq<Palindrome> {
    if |xs| == 0 then []
    else
      var rest := Unique(xs[..|xs| - 1]);
      if Key(xs[|xs| - 1]) in KeySet(rest) then rest else rest + [xs[|xs| - 1]]
  }

  lemma KeySetAppend(xs: seq<Palindrome>, x: Palindrome)
    ensures KeySet(xs + [x]) == KeySet(xs) + {Key(x)}
    ensures forall y :: y in xs ==> Key(y) in KeySet(xs)
  {
    assert forall y :: y in xs + [x] <==> y in xs || y == x;
  }

  /** The filter loses no pair and repeats none. */
  lemma {:induction false} UniqueSpec(xs: seq<Palindrome>)
    ensures forall y :: y in Unique(xs) ==> y in xs
    ensures KeySet(Unique(xs)) == KeySet(xs)
    ensures DistinctKeys(Unique(xs))
  {
    if |xs| > 0 {
      var init, x := xs[..|xs| - 1], xs[|xs| - 1];
      var rest := Unique(init);
      UniqueSpec(init);
      assert xs == init + [x];
      KeySetAppend(init, x);
      KeySetAppend(rest, x);
    }
  }

  ghost predicate LongestFirst(xs: seq<Palindrome>) {
    forall i, j :: 0 <= i < j < |xs| ==> xs[i].length >= xs[j].length
  }

  /** Places x after every element at least as long, so that among equal
      lengths the earlier element stays first. */
  function InsertByLength(x: Palindrome, xs: seq<Palindrome>): (r: seq<Palindrome>)
    ensures |r| == |xs| + 1
    ensures r[0] == x || (|xs| > 0 && r[0] == xs[0])
  {
    if |xs| == 0 then [x]
    else if xs[0].length >= x.length then [xs[0]] + InsertByLength(x, xs[1..])
    else [x] + xs
  }

  /** A longer-or-equal head in front of a sorted sequence whose first
      element it bounds keeps it sorted. */
  lemma ConsSorted(h: Palindrome, xs: seq<Palindrome>)
    requires LongestFirst(xs) && (|xs| > 0 ==> h.length >= xs[0].length)
    ensures LongestFirst([h] + xs)
  {
    var r := [h] + xs;
    forall i, j | 0 <= i < j < |r|
      ensures r[i].length >= r[j].length
    {
      if i == 0 && j > 1 {
        assert xs[0].length >= xs[j - 1].length;
      }
    }
  }

  lemma {:induction false} InsertByLengthSorted(x: Palindrome, xs: seq<Palindrome>)
    requires LongestFirst(xs)
    ensures LongestFirst(InsertByLength(x, xs))
  {
    if |xs| > 0 && xs[0].length >= x.length {
      InsertByLengthSorted(x, xs[1..]);
      ConsSorted(xs[0], InsertByLength(x, xs[1..]));
    } else {
      ConsSorted(x, xs);
    }
  }

  lemma {:induction false} InsertByLengthPermutes(x: Palindrome, xs: seq<Palindrome>)
    ensures multiset(InsertByLength(x, xs)) == multiset(xs) + multiset{x}
  {
    if |xs| > 0 && xs[0].length >= x.length {
      InsertByLengthPermutes(x, xs[1..]);
      assert xs == [xs[0]] + xs[1..];
    }
  }

  /** sort((a, b) => b.length - a.length) (page.tsx line 162), as a stable
      insertion sort. */
  function SortByLength(xs: seq<Palindrome>): (r: seq<Palindrome>)
    ensures |r| == |xs|
  {
    if |xs| == 0 then []
    else InsertByLength(xs[|xs| - 1], SortByLength(xs[..|xs| - 1]))
  }

  lemma {:induction false} SortByLengthSorted(xs: seq<Palindrome>)
    ensures LongestFirst(SortByLength(xs)) && multiset(SortByLength(xs)) == multiset(xs)
  {
    if |xs| > 0 {
      var init, last := xs[..|xs| - 1], xs[|xs| - 1];
      SortByLengthSorted(init);
      var sorted := SortByLength(init);
      assert SortByLength(xs) == InsertByLength(last, sorted);
      InsertByLengthSorted(last, sorted);
      InsertByLengthPermutes(last, sorted);
      MultisetLast(xs, init, last);
    }
  }

  lemma MultisetLast(xs: seq<Palindrome>, init: seq<Palindrome>, last: Palindrome)
    requires |xs| > 0 && init == xs[..|xs| - 1] && last == xs[|xs| - 1]
    ensures multiset(xs) == multiset(init) + multiset{last}
  {
    assert xs == init + [last];
  }

  /** A permutation of a sequence with distinct keys has distinct keys. */
  lemma PermutedDistinctKeys(xs: seq<Palindrome>, r: seq<Palindrome>)
    requires DistinctKeys(xs) && multiset(r) == multiset(xs)
    ensures DistinctKeys(r)
  {
    PermutedDistinct(xs, r);
    forall i, j | 0 <= i < j < |r|
      ensures Key(r[i]) != Key(r[j])
    {
      assert r[i] in multiset(xs) && r[j] in multiset(xs);
      var a :| 0 <= a < |xs| && xs[a] == r[i];
      var b :| 0 <= b < |xs| && xs[b] == r[j];
    }
  }

  function Extracted(rule: Conversion, p: seq<int>, t: string): seq<Palindrome> {
    SortByLength(Unique(Raw(rule, p, t, |p|)))
  }

  /** The extraction result: collected palindromes ordered longest first,
      each (start, end) pair exactly once. */
  lemma ExtractedShape(rule: Conversion, p: seq<int>, t: string)
    ensures LongestFirst(Extracted(rule, p, t)) && DistinctKeys(Extracted(rule, p, t))
    ensures forall x :: x in Extracted(rule, p, t) ==> x in Raw(rule, p, t, |p|) && WellFormed(x, t)
    ensures KeySet(Extracted(rule, p, t)) == KeySet(Raw(rule, p, t, |p|))
  {
    var raw := Raw(rule, p, t, |p|);
    var u := Unique(raw);
    var ps := Extracted(rule, p, t);
    UniqueSpec(raw);
    SortByLengthSorted(u);
    PermutedDistinctKeys(u, ps);
    forall x | x in ps
      ensures x in raw && WellFormed(x, t)
    {
      assert x in multiset(u);
      var i := RawOrigin(rule, p, t, |p|, x);
    }
    assert forall x :: x in ps <==> x in u by {
      forall x
        ensures x in ps <==> x in u
      {
        assert x in ps <==> x in multiset(ps);
        assert x in u <==> x in multiset(u);
      }
    }
  }

  /** getLongestPalindrome: the first, hence longest, palindrome extracted. */
  function Longest(ps: seq<Palindrome>): string {
    if |ps| > 0 then ps[0].text else ""
  }

  // ------------------------------------------------------------ the corrected conversion

  /** A maximal radius in the padded string ends on '#' at both sides. */
  lemma RadiusParity(t: string, s: string, i: int, r: int)
    requires Layout(t, s) && IsRadius(s, i, r)
    ensures (i - r) % 2 == 0
  {
    var lo, hi := i - r - 1, i + r + 1;
    if 0 <= lo && hi < |s| {
      assert s[lo] == Cell(t, lo) && s[hi] == Cell(t, hi);
    }
  }

  /** The text characters under a padded palindrome that starts and ends on
      '#' read the same backwards. */
  lemma MirrorText(t: string, s: string, i: int, r: int, start: int)
    requires Layout(t, s) && PalAround(s, i, r) && 2 * start == i - r && r > 0
    ensures 0 <= start && start + r <= |t| && IsPalindrome(t[start..start + r])
  {
    var w := t[start..start + r];
    forall q | 0 <= q < r
      ensures w[q] == w[r - 1 - q]
    {
      var lo, hi := 2 * (start + q) + 1, 2 * (start + r - 1 - q) + 1;
      assert s[lo] == Cell(t, lo) && s[hi] == Cell(t, hi);
      if lo <= i {
        assert s[lo] == s[2 * i - lo];
      } else {
        assert s[hi] == s[2 * i - hi];
      }
    }
  }

  /** The corrected conversion turns a maximal radius into a palindrome of the
      text of exactly that length. */
  lemma RadiusGivesPalindrome(t: string, s: string, i: int, r: int)
    requires Layout(t, s) && IsRadius(s, i, r) && r > 0
    ensures Convert(Corrected, i, r, t).Some?
    ensures Convert(Corrected, i, r, t).value.length == r
    ensures IsPalindrome(Convert(Corrected, i, r, t).value.text)
  {
    RadiusParity(t, s, i, r);
    var start := (i - r) / 2;
    assert 2 * start == i - r;
    assert (i + r) / 2 - 1 == start + r - 1;
    MirrorText(t, s, i, r, start);
  }

  /** Every palindromic substring t[a..b) is a palindrome of radius b-a
      around the padded centre a+b. */
  lemma PalindromeGivesRadius(t: string, s: string, a: int, b: int)
    requires Layout(t, s) && 0 <= a < b <= |t| && IsPalindrome(t[a..b])
    ensures PalAround(s, a + b, b - a)
  {
    var i := a + b;
    forall k | 2 * a <= k <= i
      ensures s[k] == s[2 * i - k]
    {
      var k' := 2 * i - k;
      assert s[k] == Cell(t, k) && s[k'] == Cell(t, k');
      if k % 2 == 1 {
        MirrorCell(t, a, b, k, k');
      }
    }
  }

  /** An odd cell inside the padded palindrome and its mirror image hold
      mirrored characters of the palindrome. */
  lemma MirrorCell(t: string, a: int, b: int, k: int, k': int)
    requires 0 <= a < b <= |t| && IsPalindrome(t[a..b])
    requires 2 * a <= k <= a + b && k' == 2 * (a + b) - k && k % 2 == 1
    ensures Cell(t, k) == Cell(t, k')
  {
    var w, u := t[a..b], (k - 1) / 2;
    var v := a + b - 1 - u;
    assert k == 2 * u + 1 && k' == 2 * v + 1 && (k' - 1) / 2 == v;
    assert w[u - a] == w[|w| - 1 - (u - a)];
    assert w[u - a] == t[u] && w[|w| - 1 - (u - a)] == t[v];
  }

  /** Every palindrome the corrected extraction collects is one of the text. */
  lemma CorrectedSound(t: string, p: seq<int>, x: Palindrome)
    requires IsRadii(Preprocess(t), p) && x in Raw(Corrected, p, t, |p|)
    ensures WellFormed(x, t) && IsPalindrome(x.text)
  {
    var i := RawOrigin(Corrected, p, t, |p|, x);
    PreprocessLayout(t);
    if |t| > 0 {
      RadiusGivesPalindrome(t, Preprocess(t), i, p[i]);
    }
  }

  /** For every palindromic substring t[a..b) the corrected extraction
      collects one at least as long, around the same centre. */
  lemma CorrectedCovers(t: string, p: seq<int>, a: int, b: int) returns (x: Palindrome)
    requires IsRadii(Preprocess(t), p) && 0 <= a < b <= |t| && IsPalindrome(t[a..b])
    ensures x in Raw(Corrected, p, t, |p|) && x.length >= b - a
  {
    var s, i := Preprocess(t), a + b;
    PreprocessLayout(t);
    PalindromeGivesRadius(t, s, a, b);
    RadiusIsLongest(s, i, p[i], b - a);
    RadiusGivesPalindrome(t, s, i, p[i]);
    x := Convert(Corrected, i, p[i], t).value;
    RawMember(Corrected, p, t, |p|, i);
  }

  /** With the corrected conversion the first extracted palindrome is a
      longest palindromic substring of the text. */
  lemma CorrectedLongest(t: string, p: seq<int>)
    requires IsRadii(Preprocess(t), p)
    ensures IsPalindrome(Longest(Extracted(Corrected, p, t)))
    ensures exists a, b :: 0 <= a <= b <= |t| && t[a..b] == Longest(Extracted(Corrected, p, t))
    ensures forall a, b :: 0 <= a < b <= |t| && IsPalindrome(t[a..b]) ==> b - a <= |Longest(Extracted(Corrected, p, t))|
  {
    var ps := Extracted(Corrected, p, t);
    var w := Longest(ps);
    ExtractedShape(Corrected, p, t);
    if |ps| > 0 {
      CorrectedSound(t, p, ps[0]);
      assert t[ps[0].start..ps[0].end + 1] == w;
    } else {
      assert t[0..0] == w;
    }
    forall a, b | 0 <= a < b <= |t| && IsPalindrome(t[a..b])
      ensures b - a <= |w|
    {
      var x := CorrectedCovers(t, p, a, b);
      CorrectedSound(t, p, x);
      LongestCovers(ps, Raw(Corrected, p, t, |p|), t, x);
    }
  }

  /** Any collected palindrome is no longer than the first one extracted. */
  lemma LongestCovers(ps: seq<Palindrome>, raw: seq<Palindrome>, t: string, x: Palindrome)
    requires LongestFirst(ps) && KeySet(ps) == KeySet(raw) && x in raw && WellFormed(x, t)
    requires forall y :: y in ps ==> WellFormed(y, t)
    ensures |ps| > 0 && x.length <= |ps[0].text|
  {
    assert Key(x) in KeySet(raw);
    var y :| y in ps && Key(y) == Key(x);
    var k :| 0 <= k < |ps| && ps[k] == y;
    assert ps[0] in ps;
    assert y.length == x.length;
    assert k > 0 ==> ps[0].length >= ps[k].length;
  }

  /** For "abba" the page's conversion turns the even palindrome around the
      middle (radius 4 at padded index 4) into the range 1..3, and the text
      "bba" it reports there is not a palindrome. */
  lemma EvenCentreMisreported()
    ensures IsRadii(Preprocess("abba"), [0, 1, 0, 1, 4, 1, 0, 1, 0])
    ensures exists x :: x in Extracted(AsWritten, [0, 1, 0, 1, 4, 1, 0, 1, 0], "abba") && x.text == "bba" && !IsPalindrome(x.text)
  {
    AbbaRadii();
    var p, t := [0, 1, 0, 1, 4, 1, 0, 1, 0], "abba";
    var x := Palindrome(1, 3, 3, "bba");
    assert t[1..4] == "bba";
    assert Convert(AsWritten, 4, p[4], t) == Some(x);
    RawMember(AsWritten, p, t, |p|, 4);
    ExtractedShape(AsWritten, p, t);
    assert Key(x) in KeySet(Raw(AsWritten, p, t, |p|));
    var y :| y in Extracted(AsWritten, p, t) && Key(y) == Key(x);
    assert y.text == "bba";
    assert "bba"[0] != "bba"[2];
  }

  lemma AbbaPadded()
    ensures Preprocess("abba") == "#a#b#b#a#"
  {
    assert Join("a") == "a";
    assert Join("ba") == "b#a";
    assert Join("bba") == "b#b#a";
  }

  lemma AbbaRadii()
    ensures IsRadii(Preprocess("abba"), [0, 1, 0, 1, 4, 1, 0, 1, 0])
  {
    AbbaPadded();
    var s, p := "#a#b#b#a#", [0, 1, 0, 1, 4, 1, 0, 1, 0];
    forall i | 0 <= i < 9
      ensures IsRadius(s, i, p[i])
    {
      if i == 4 {
        AbbaMiddle();
      } else if i % 2 == 0 {
        assert s[i] == '#' && p[i] == 0;
        assert 0 < i < 8 ==> s[i - 1] != s[i + 1];
      } else {
        assert s[i - 1] == '#' == s[i + 1] && p[i] == 1;
        assert 1 < i < 7 ==> s[i - 2] != s[i + 2];
      }
    }
  }

  lemma AbbaMiddle()
    ensures IsRadius("#a#b#b#a#", 4, 4)
  {
    var s := "#a#b#b#a#";
    assert s[0] == '#' && s[1] == 'a' && s[2] == '#' && s[3] == 'b' && s[4] == '#';
    assert s[5] == 'b' && s[6] == '#' && s[7] == 'a' && s[8] == '#';
    assert PalAround(s, 4, 4);
  }
}
