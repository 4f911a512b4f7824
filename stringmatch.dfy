/** What both string-matching screens share: occurrences, the failure
    function (LPS array) of Knuth-Morris-Pratt and its search invariant, and
    the right-to-left scan of Boyer-Moore under its possible shift rules. */
module StringMatching {
  import opened Common

  /** The pattern occurs in the text at s. */
  predicate Occurs(text: string, p: string, s: int) {
    0 <= s && s + |p| <= |text| && forall t :: 0 <= t < |p| ==> text[s + t] == p[t]
  }

  lemma IncreasingAppend(xs: seq<int>, x: int)
    requires Increasing(xs) && forall y :: y in xs ==> y < x
    ensures Increasing(xs + [x])
  {
    forall i, j | 0 <= i < j < |xs| + 1
      ensures (xs + [x])[i] < (xs + [x])[j]
    {
      assert (xs + [x])[i] == xs[i];
      if j == |xs| {
        assert xs[i] in xs;
      }
    }
  }

  lemma IncreasingCons(x: int, xs: seq<int>)
    requires Increasing(xs) && forall y :: y in xs ==> x < y
    ensures Increasing([x] + xs)
  {
    forall i, j | 0 <= i < j < |xs| + 1
      ensures ([x] + xs)[i] < ([x] + xs)[j]
    {
      assert ([x] + xs)[j] == xs[j - 1];
      if i > 0 {
        assert ([x] + xs)[i] == xs[i - 1];
      } else {
        assert xs[j - 1] in xs;
      }
    }
  }

  /** matches lists exactly the occurrence starts, ascending. */
  ghost predicate AllOccurrences(text: string, p: string, matches: seq<int>) {
    Increasing(matches) && forall s :: s in matches <==> Occurs(text, p, s)
  }

  // ------------------------------------------------------------ borders

  /** p[..l] is a proper border of p[..k]: a prefix that is also a suffix. */
  ghost predicate Border(p: string, k: int, l: int) {
    0 <= l < k <= |p| && forall t :: 0 <= t < l ==> p[t] == p[k - l + t]
  }

  ghost predicate LongestBorder(p: string, k: int, l: int) {
    Border(p, k, l) && forall l' :: l < l' < k ==> !Border(p, k, l')
  }

  /** lps[i] is the length of the longest proper border of p[..i+1]. */
  ghost predicate IsLps(p: string, lps: seq<int>) {
    |lps| == |p| && forall i :: 0 <= i < |p| ==> LongestBorder(p, i + 1, lps[i])
  }

  lemma BorderShrink(p: string, k: int, l: int)
    requires Border(p, k + 1, l) && l >= 1
    ensures Border(p, k, l - 1)
  {
    forall t | 0 <= t < l - 1
      ensures p[t] == p[k - (l - 1) + t]
    {
      assert p[t] == p[k + 1 - l + t];
    }
  }

  lemma BorderGrow(p: string, k: int, l: int)
    requires Border(p, k, l) && k < |p| && p[l] == p[k]
    ensures Border(p, k + 1, l + 1)
  {
    forall t | 0 <= t < l + 1
      ensures p[t] == p[k + 1 - (l + 1) + t]
    {
      if t < l {
        assert p[t] == p[k - l + t];
      }
    }
  }

  /** A border of a border is a border. */
  lemma BorderOfBorder(p: string, k: int, l: int, b: int)
    requires Border(p, k, l) && Border(p, l, b)
    ensures Border(p, k, b)
  {
    forall t | 0 <= t < b
      ensures p[t] == p[k - b + t]
    {
      assert p[t] == p[l - b + t];
      assert p[l - b + t] == p[k - l + (l - b + t)];
    }
  }

  /** A shorter border is a border of the longer one. */
  lemma ShorterBorder(p: string, k: int, l: int, b: int)
    requires Border(p, k, l) && Border(p, k, b) && b < l
    ensures Border(p, l, b)
  {
    forall t | 0 <= t < b
      ensures p[t] == p[l - b + t]
    {
      assert p[t] == p[k - b + t];
      assert p[l - b + t] == p[k - l + (l - b + t)];
    }
  }

  /** No border of p[..k] is longer than len + 1. */
  ghost predicate Candidates(p: string, k: int, len: int) {
    forall l :: len + 1 < l < k ==> !Border(p, k, l)
  }

  lemma LpsExtend(p: string, i: int, len: int)
    requires 1 <= i < |p| && Border(p, i, len) && Candidates(p, i + 1, len) && p[i] == p[len]
    ensures LongestBorder(p, i + 1, len + 1) && Candidates(p, i + 2, len + 1)
  {
    BorderGrow(p, i, len);
    var k := i + 2;
    forall l | len + 2 < l < k
      ensures !Border(p, k, l)
    {
      if Border(p, k, l) {
        BorderShrink(p, i + 1, l);
      }
    }
  }

  lemma LpsFallback(p: string, i: int, len: int, b: int)
    requires 1 <= i < |p| && 0 < len && Border(p, i, len) && Candidates(p, i + 1, len) && p[i] != p[len]
    requires LongestBorder(p, len, b)
    ensures Border(p, i, b) && Candidates(p, i + 1, b)
  {
    BorderOfBorder(p, i, len, b);
    var k := i + 1;
    forall l | b + 1 < l < k
      ensures !Border(p, k, l)
    {
      if Border(p, k, l) {
        if l <= len {
          BorderShrink(p, i, l);
          ShorterBorder(p, i, len, l - 1);
        }
      }
    }
  }

  lemma LpsZero(p: string, i: int)
    requires 1 <= i < |p| && Candidates(p, i + 1, 0) && p[i] != p[0]
    ensures LongestBorder(p, i + 1, 0) && Candidates(p, i + 2, 0)
  {
    var k := i + 2;
    forall l | 1 < l < k
      ensures !Border(p, k, l)
    {
      if Border(p, k, l) {
        BorderShrink(p, i + 1, l);
      }
    }
  }

  /** buildLPS / computeLPS: len is the border being extended at i; on a
      mismatch it falls back to lps[len - 1]. Every lps[i] ends the longest
      proper border of p[..i+1], and lps[0] is 0. */
  method ComputeLps(p: string) returns (lps: array<int>)
    ensures fresh(lps) && IsLps(p, lps[..])
  {
    var m := |p|;
    lps := new int[m](_ => 0);
    var len := 0;
    var i := 1;
    while i < m
      invariant lps.Length == m && 1 <= i && (m == 0 || i <= m)
      invariant i <= m ==> Border(p, i, len)
      invariant forall k :: 0 <= k < i && k < m ==> LongestBorder(p, k + 1, lps[k])
      invariant i < m ==> Candidates(p, i + 1, len)
      decreases m - i, len
    {
      if p[i] == p[len] {
        LpsExtend(p, i, len);
        len := len + 1;
        lps[i] := len;
        i := i + 1;
      } else if len != 0 {
        LpsFallback(p, i, len, lps[len - 1]);
        len := lps[len - 1];
      } else {
        LpsZero(p, i);
        lps[i] := 0;
        i := i + 1;
      }
    }
  }

  // ------------------------------------------------------- the KMP scan

  /** text[i - j..i] equals p[..j]. */
  ghost predicate MatchedUpTo(text: string, p: string, i: int, j: int) {
    0 <= j <= i <= |text| && j <= |p| && forall t :: 0 <= t < j ==> text[i - j + t] == p[t]
  }

  /** The KMP scan at text index i and pattern index j: the last j
      characters read match p[..j], and matches holds exactly the occurrences
      starting before i - j, ascending. */
  ghost predicate KmpState(text: string, p: string, lps: seq<int>, i: int, j: int, matches: seq<int>) {
    IsLps(p, lps) && MatchedUpTo(text, p, i, j) && Increasing(matches) &&
    forall s :: s in matches <==> 0 <= s < i - j && Occurs(text, p, s)
  }

  lemma KmpStart(text: string, p: string, lps: seq<int>)
    requires IsLps(p, lps)
    ensures KmpState(text, p, lps, 0, 0, [])
  {
  }

  /** A matching character extends the partial match. */
  lemma KmpAdvance(text: string, p: string, lps: seq<int>, i: int, j: int, matches: seq<int>)
    requires KmpState(text, p, lps, i, j, matches) && j < |p| && i < |text| && p[j] == text[i]
    ensures KmpState(text, p, lps, i + 1, j + 1, matches)
  {
  }

  /** A full match is recorded, and the scan continues with the longest
      border of the pattern: no occurrence starts strictly in between. */
  lemma KmpFound(text: string, p: string, lps: seq<int>, i: int, matches: seq<int>)
    requires 0 < |p| && KmpState(text, p, lps, i, |p|, matches)
    ensures KmpState(text, p, lps, i, lps[|p| - 1], matches + [i - |p|])
  {
    var m := |p|;
    var b := lps[m - 1];
    forall t | 0 <= t < b
      ensures text[i - b + t] == p[t]
    {
      assert text[i - m + (m - b + t)] == p[m - b + t];
    }
    forall s | i - m < s < i - b
      ensures !Occurs(text, p, s)
    {
      OccurrenceInsideMatch(text, p, i, m, s);
    }
    IncreasingAppend(matches, i - m);
    assert Occurs(text, p, i - m) by {
      forall t | 0 <= t < m
        ensures text[i - m + t] == p[t]
      {
      }
    }
  }

  /** On a mismatch after j > 0 characters the scan falls back to lps[j - 1]:
      no occurrence starts in between. */
  lemma KmpFallback(text: string, p: string, lps: seq<int>, i: int, j: int, matches: seq<int>)
    requires KmpState(text, p, lps, i, j, matches) && 0 < j < |p| && i < |text| && p[j] != text[i]
    ensures KmpState(text, p, lps, i, lps[j - 1], matches)
  {
    var b := lps[j - 1];
    forall t | 0 <= t < b
      ensures text[i - b + t] == p[t]
    {
      assert text[i - j + (j - b + t)] == p[j - b + t];
    }
    forall s | i - j <= s < i - b
      ensures !Occurs(text, p, s)
    {
      if s == i - j {
        assert text[s + j] != p[j];
      } else {
        OccurrenceInsideMatch(text, p, i, j, s);
      }
    }
  }

  /** An occurrence starting inside the matched window turns the overlap
      into a border of the matched prefix. */
  lemma OccurrenceInsideMatch(text: string, p: string, i: int, j: int, s: int)
    requires MatchedUpTo(text, p, i, j) && i - j < s < i
    ensures Occurs(text, p, s) ==> Border(p, j, i - s)
  {
    if Occurs(text, p, s) {
      var l := i - s;
      forall t | 0 <= t < l
        ensures p[t] == p[j - l + t]
      {
        assert text[s + t] == p[t];
        assert text[i - j + (j - l + t)] == p[j - l + t];
      }
    }
  }

  /** A mismatch at pattern index 0 rules out an occurrence at i. */
  lemma KmpSkip(text: string, p: string, lps: seq<int>, i: int, matches: seq<int>)
    requires 0 < |p| && KmpState(text, p, lps, i, 0, matches) && i < |text| && p[0] != text[i]
    ensures KmpState(text, p, lps, i + 1, 0, matches)
  {
  }

  /** At the end of the text every occurrence has been recorded. */
  lemma KmpDone(text: string, p: string, lps: seq<int>, j: int, matches: seq<int>)
    requires KmpState(text, p, lps, |text|, j, matches) && j < |p|
    ensures AllOccurrences(text, p, matches)
  {
  }

  // ------------------------------------------------ the Boyer-Moore scan

  /** The last index below h holding c, or -1. */
  function LastBelow(p: string, c: char, h: int): (k: int)
    requires 0 <= h <= |p|
    ensures -1 <= k < h
    ensures k >= 0 ==> p[k] == c
    ensures forall q :: k < q < h ==> p[q] != c
    decreases h
  {
    if h == 0 then -1 else if p[h - 1] == c then h - 1 else LastBelow(p, c, h - 1)
  }

  /** The shift rules the visualizers use after a mismatch at pattern index
      j against text character c. */
  datatype ShiftRule =
    | HorspoolTableRule  // j minus the distance of c's last occurrence before the last cell from the end
    | FalsyZeroRule      // j minus c's last index, an index 0 counting as absent
    | LastOccurrenceRule // j minus c's last index, -1 when absent

  function Shift(rule: ShiftRule, p: string, j: int, c: char): (d: int)
    requires 0 <= j < |p|
    ensures 1 <= d <= j + 1
  {
    var m := |p|;
    match rule
    case HorspoolTableRule => Max(1, j - (m - 1 - LastBelow(p, c, m - 1)))
    case FalsyZeroRule =>
      var k := LastBelow(p, c, m);
      Max(1, j - (if k > 0 then k else -1))
    case LastOccurrenceRule => Max(1, j - LastBelow(p, c, m))
  }

  /** The right-to-left comparison of the alignment at s from index j down:
      the first index that mismatches, or -1. */
  function MismatchAt(text: string, p: string, s: int, j: int): (r: int)
    requires 0 <= s && s + |p| <= |text| && -1 <= j < |p|
    ensures -1 <= r <= j
    ensures r >= 0 ==> p[r] != text[s + r]
    decreases j + 1
  {
    if j < 0 then -1
    else if p[j] == text[s + j] then MismatchAt(text, p, s, j - 1)
    else j
  }

  /** Every index above the reported mismatch agrees with the text. */
  lemma {:induction false} MismatchAtAgrees(text: string, p: string, s: int, j: int)
    requires 0 <= s && s + |p| <= |text| && -1 <= j < |p|
    ensures forall t :: MismatchAt(text, p, s, j) < t <= j ==> p[t] == text[s + t]
    decreases j + 1
  {
    if j >= 0 && p[j] == text[s + j] {
      MismatchAtAgrees(text, p, s, j - 1);
    }
  }

  /** The matches a Boyer-Moore scan reports from alignment s on: a full
      match is recorded and the pattern moves by one, a mismatch moves it by
      the rule's shift. */
  function BoyerMooreRun(text: string, p: string, rule: ShiftRule, s: int): seq<int>
    requires 0 < |p| && 0 <= s
    decreases |text| - s
  {
    if s > |text| - |p| then []
    else
      var j := MismatchAt(text, p, s, |p| - 1);
      if j < 0 then [s] + BoyerMooreRun(text, p, rule, s + 1)
      else BoyerMooreRun(text, p, rule, s + Shift(rule, p, j, text[s + j]))
  }

  /** One step of the scan at an alignment that matches in full: the start
      joins the matches found so far. */
  lemma RunMatchStep(text: string, p: string, rule: ShiftRule, s: int, matches: seq<int>)
    requires 0 < |p| && 0 <= s <= |text| - |p| && MismatchAt(text, p, s, |p| - 1) < 0
    ensures matches + BoyerMooreRun(text, p, rule, s) == (matches + [s]) + BoyerMooreRun(text, p, rule, s + 1)
  {
    var rest := BoyerMooreRun(text, p, rule, s + 1);
    assert BoyerMooreRun(text, p, rule, s) == [s] + rest;
    AppendAssociates(matches, [s], rest);
  }

  /** One step of the scan at an alignment that mismatches at j: the
      pattern moves by the rule's shift. */
  lemma RunShiftStep(text: string, p: string, rule: ShiftRule, s: int, j: int, matches: seq<int>)
    requires 0 < |p| && 0 <= s <= |text| - |p| && j == MismatchAt(text, p, s, |p| - 1) && j >= 0
    ensures matches + BoyerMooreRun(text, p, rule, s) == matches + BoyerMooreRun(text, p, rule, s + Shift(rule, p, j, text[s + j]))
  {
    var r := BoyerMooreRun(text, p, rule, s);
    assert !(s > |text| - |p|);
    assert r == BoyerMooreRun(text, p, rule, s + Shift(rule, p, j, text[s + j]));
  }

  /** Past the last alignment the scan reports nothing more. */
  lemma RunEnd(text: string, p: string, rule: ShiftRule, s: int, matches: seq<int>)
    requires 0 < |p| && 0 <= s && s > |text| - |p|
    ensures matches + BoyerMooreRun(text, p, rule, s) == matches
  {
    assert BoyerMooreRun(text, p, rule, s) == [];
  }

  /** Whatever the shift rule, a reported start is a real occurrence, and
      the starts ascend. */
  lemma {:induction false} BoyerMooreRunSound(text: string, p: string, rule: ShiftRule, s: int)
    requires 0 < |p| && 0 <= s
    ensures Increasing(BoyerMooreRun(text, p, rule, s))
    ensures forall x :: x in BoyerMooreRun(text, p, rule, s) ==> s <= x && Occurs(text, p, x)
    decreases |text| - s
  {
    if s <= |text| - |p| {
      var j := MismatchAt(text, p, s, |p| - 1);
      if j < 0 {
        MismatchAtAgrees(text, p, s, |p| - 1);
        BoyerMooreRunSound(text, p, rule, s + 1);
        IncreasingCons(s, BoyerMooreRun(text, p, rule, s + 1));
      } else {
        BoyerMooreRunSound(text, p, rule, s + Shift(rule, p, j, text[s + j]));
      }
    }
  }

  /** With the last-occurrence rule no occurrence is skipped. */
  lemma {:induction false} BoyerMooreRunComplete(text: string, p: string, s: int, x: int)
    requires 0 < |p| && 0 <= s <= x && Occurs(text, p, x)
    ensures x in BoyerMooreRun(text, p, LastOccurrenceRule, s)
    decreases |text| - s
  {
    var j := MismatchAt(text, p, s, |p| - 1);
    if j < 0 {
      if x > s {
        BoyerMooreRunComplete(text, p, s + 1, x);
      }
    } else {
      var d := Shift(LastOccurrenceRule, p, j, text[s + j]);
      ShiftSafe(text, p, s, j, x);
      BoyerMooreRunComplete(text, p, s + d, x);
    }
  }

  /** With the last-occurrence rule the scan reports exactly the occurrences. */
  lemma LastOccurrenceRunExact(text: string, p: string)
    requires 0 < |p|
    ensures AllOccurrences(text, p, BoyerMooreRun(text, p, LastOccurrenceRule, 0))
  {
    BoyerMooreRunSound(text, p, LastOccurrenceRule, 0);
    forall x | Occurs(text, p, x)
      ensures x in BoyerMooreRun(text, p, LastOccurrenceRule, 0)
    {
      BoyerMooreRunComplete(text, p, 0, x);
    }
  }

  /** The last-occurrence shift never passes an occurrence: an alignment
      between would put a later copy of the mismatching character under it. */
  lemma ShiftSafe(text: string, p: string, s: int, j: int, x: int)
    requires 0 <= s <= x && Occurs(text, p, x) && 0 <= j < |p| && s + |p| <= |text| && p[j] != text[s + j]
    ensures x >= s + Shift(LastOccurrenceRule, p, j, text[s + j])
  {
    var q := j - (x - s);
    if 0 <= q {
      assert text[x + q] == p[q];
    }
  }

  /** badCharTable: each pattern character mapped to its last index. */
  method BadCharTable(p: string) returns (table: map<char, int>)
    ensures forall c :: c in table <==> c in p
    ensures forall c :: c in table ==> table[c] == LastBelow(p, c, |p|)
  {
    table := map[];
    var i := 0;
    while i < |p|
      invariant 0 <= i <= |p|
      invariant forall c :: c in table <==> LastBelow(p, c, i) >= 0
      invariant forall c :: c in table ==> table[c] == LastBelow(p, c, i)
    {
      table := table[p[i] := i];
      i := i + 1;
    }
    forall c | c in p
      ensures c in table
    {
      var k :| 0 <= k < |p| && p[k] == c;
    }
  }

  /** The inner loop of both Boyer-Moore scans: compare the alignment at s
      from the right while the characters agree. */
  method CompareFromRight(text: string, pattern: string, s: int) returns (j: int)
    requires 0 < |pattern| && 0 <= s && s + |pattern| <= |text|
    ensures j == MismatchAt(text, pattern, s, |pattern| - 1)
  {
    j := |pattern| - 1;
    while j >= 0 && pattern[j] == text[s + j]
      invariant -1 <= j <= |pattern| - 1
      invariant MismatchAt(text, pattern, s, |pattern| - 1) == MismatchAt(text, pattern, s, j)
    {
      j := j - 1;
    }
  }

  /** The shift after a mismatch at j against c: max(1, j - last index of
      c), with -1 for a character absent from the pattern. */
  method LastOccurrenceShift(badChar: map<char, int>, pattern: string, j: int, c: char) returns (shift: int)
    requires 0 <= j < |pattern|
    requires forall c :: c in badChar <==> c in pattern
    requires forall c :: c in badChar ==> badChar[c] == LastBelow(pattern, c, |pattern|)
    ensures shift == Shift(LastOccurrenceRule, pattern, j, c)
  {
    var last := if c in badChar then badChar[c] else -1;
    shift := Max(1, j - last);
  }

  /** One pass of the scan loop: compare the alignment from the right,
      record a full match and move by one, or move by the shift. */
  method ScanAlignment(text: string, pattern: string, badChar: map<char, int>, matches: seq<int>, s: int, ghost total: seq<int>)
      returns (matches': seq<int>, s': int)
    requires 0 < |pattern| && 0 <= s <= |text| - |pattern|
    requires forall c :: c in badChar <==> c in pattern
    requires forall c :: c in badChar ==> badChar[c] == LastBelow(pattern, c, |pattern|)
    requires total == matches + BoyerMooreRun(text, pattern, LastOccurrenceRule, s)
    ensures s < s'
    ensures total == matches' + BoyerMooreRun(text, pattern, LastOccurrenceRule, s')
  {
    var j := CompareFromRight(text, pattern, s);
    if j < 0 {
      RunMatchStep(text, pattern, LastOccurrenceRule, s, matches);
      matches' := matches + [s];
      s' := s + 1;
    } else {
      RunShiftStep(text, pattern, LastOccurrenceRule, s, j, matches);
      var shift := LastOccurrenceShift(badChar, pattern, j, text[s + j]);
      matches' := matches;
      s' := s + shift;
    }
  }

  /** Boyer-Moore with the bad-character rule as it is usually stated: on a
      mismatch at j against c, shift by max(1, j - last index of c), with -1
      for a character absent from the pattern. It reports exactly the
      occurrences, ascending. */
  method BoyerMooreSearch(text: string, pattern: string) returns (matches: seq<int>)
    requires |pattern| > 0
    ensures matches == BoyerMooreRun(text, pattern, LastOccurrenceRule, 0)
    ensures AllOccurrences(text, pattern, matches)
  {
    var n, m := |text|, |pattern|;
    var badChar := BadCharTable(pattern);
    matches := [];
    var s := 0;
    ghost var total := BoyerMooreRun(text, pattern, LastOccurrenceRule, 0);
    assert total == matches + total;
    while s <= n - m
      invariant 0 <= s
      invariant total == matches + BoyerMooreRun(text, pattern, LastOccurrenceRule, s)
      decreases n - s
    {
      matches, s := ScanAlignment(text, pattern, badChar, matches, s, total);
    }
    RunEnd(text, pattern, LastOccurrenceRule, s, matches);
    LastOccurrenceRunExact(text, pattern);
  }
}
