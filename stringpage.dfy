/** The string-algorithms page: naive, Knuth-Morris-Pratt, Boyer-Moore and
    Rabin-Karp search, each returning the match positions it reports. The
    page runs them only on a non-empty text and pattern, after both are
    upper-cased. */
module StringAlgorithmsPage {
  import opened Common
  import opened StringMatching

  /** kmpSearch, whose loop body first consumes a matching character and
      then handles a full match or a mismatch in the same iteration. */
  method KmpSearch(text: string, pattern: string) returns (matches: seq<int>)
    requires |text| > 0 && |pattern| > 0
    ensures AllOccurrences(text, pattern, matches)
  {
    var n, m := |text|, |pattern|;
    var lpsArray := ComputeLps(pattern);
    var lps := lpsArray[..];
    var i, j := 0, 0;
    matches := [];
    KmpStart(text, pattern, lps);
    while i < n
      invariant j < m && KmpState(text, pattern, lps, i, j, matches)
      decreases 2 * (n - i) + j
    {
      if j < m && i < n && pattern[j] == text[i] {
        KmpAdvance(text, pattern, lps, i, j, matches);
        i, j := i + 1, j + 1;
      }
      if j == m {
        KmpFound(text, pattern, lps, i, matches);
        matches := matches + [i - j];
        j := lps[j - 1];
      } else if i < n && j < m && pattern[j] != text[i] {
        if j != 0 {
          KmpFallback(text, pattern, lps, i, j, matches);
          j := lps[j - 1];
        } else {
          KmpSkip(text, pattern, lps, i, matches);
          i := i + 1;
        }
      }
    }
    KmpDone(text, pattern, lps, j, matches);
  }

  /** The comparison loop of naiveSearch at alignment i. */
  method MatchLength(text: string, pattern: string, i: int) returns (j: int)
    requires 0 <= i && i + |pattern| <= |text|
    ensures 0 <= j <= |pattern| && (j == |pattern| <==> Occurs(text, pattern, i))
  {
    j := 0;
    while j < |pattern| && text[i + j] == pattern[j]
      invariant 0 <= j <= |pattern|
      invariant forall t :: 0 <= t < j ==> text[i + t] == pattern[t]
    {
      j := j + 1;
    }
  }

  /** naiveSearch: every alignment 0..n-m is compared left to right, and i is
      reported exactly when the whole pattern matches there. */
  method NaiveSearch(text: string, pattern: string) returns (matches: seq<int>)
    requires |text| > 0 && |pattern| > 0
    ensures AllOccurrences(text, pattern, matches)
  {
    var n, m := |text|, |pattern|;
    matches := [];
    var i := 0;
    while i <= n - m
      invariant 0 <= i <= Max(0, n - m + 1) && Increasing(matches)
      invariant forall s :: s in matches <==> 0 <= s < i && Occurs(text, pattern, s)
    {
      var j := MatchLength(text, pattern, i);
      if j == m {
        IncreasingAppend(matches, i);
        matches := matches + [i];
      }
      i := i + 1;
    }
  }

  // -------------------------------------------------------- Boyer-Moore

  /** The first loop of buildBadCharTable: pattern[i] maps to m - 1 - i for
      i < m - 1, later indices overwriting earlier ones. */
  method PatternShifts(pattern: string) returns (badChar: map<char, int>)
    requires |pattern| > 0
    ensures forall c :: c in badChar <==> LastBelow(pattern, c, |pattern| - 1) >= 0
    ensures forall c :: c in badChar ==> badChar[c] == |pattern| - 1 - LastBelow(pattern, c, |pattern| - 1)
  {
    var m := |pattern|;
    badChar := map[];
    var i := 0;
    while i < m - 1
      invariant 0 <= i <= m - 1 && ShiftsBelow(pattern, badChar, i)
    {
      ShiftsStep(pattern, badChar, i);
      badChar := badChar[pattern[i] := m - 1 - i];
      i := i + 1;
    }
  }

  /** The table holds the shift of exactly the characters met below h. */
  ghost predicate ShiftsBelow(pattern: string, badChar: map<char, int>, h: int)
    requires 0 <= h <= |pattern|
  {
    && (forall c :: c in badChar <==> LastBelow(pattern, c, h) >= 0)
    && (forall c :: c in badChar ==> badChar[c] == |pattern| - 1 - LastBelow(pattern, c, h))
  }

  lemma ShiftsStep(pattern: string, badChar: map<char, int>, i: int)
    requires 0 <= i < |pattern| && ShiftsBelow(pattern, badChar, i)
    ensures ShiftsBelow(pattern, badChar[pattern[i] := |pattern| - 1 - i], i + 1)
  {
    var b := badChar[pattern[i] := |pattern| - 1 - i];
    forall c
      ensures (c in b <==> LastBelow(pattern, c, i + 1) >= 0)
      ensures c in b ==> b[c] == |pattern| - 1 - LastBelow(pattern, c, i + 1)
    {
      if c == pattern[i] {
        assert LastBelow(pattern, c, i + 1) == i;
      } else {
        assert LastBelow(pattern, c, i + 1) == LastBelow(pattern, c, i);
      }
    }
  }

  /** buildBadCharTable: after the pattern's own shifts, every character
      code 0..255 not yet present maps to m. Every entry lies in [1, m]. */
  method BuildBadCharTable(pattern: string) returns (badChar: map<char, int>)
    requires |pattern| > 0
    ensures forall c :: c in badChar ==> badChar[c] == |pattern| - 1 - LastBelow(pattern, c, |pattern| - 1)
    ensures forall c :: c in badChar ==> 1 <= badChar[c] <= |pattern|
    ensures forall c: char :: c as int < 256 ==> c in badChar
    ensures forall c :: c !in badChar ==> LastBelow(pattern, c, |pattern| - 1) == -1
  {
    var m := |pattern|;
    badChar := PatternShifts(pattern);
    var code := 0;
    while code < 256
      invariant 0 <= code <= 256
      invariant forall c :: c in badChar ==> badChar[c] == m - 1 - LastBelow(pattern, c, m - 1)
      invariant forall c :: LastBelow(pattern, c, m - 1) >= 0 ==> c in badChar
      invariant forall c: char :: c as int < code ==> c in badChar
    {
      var ch := code as char;
      if ch !in badChar {
        badChar := badChar[ch := m];
      }
      code := code + 1;
    }
  }

  /** `Math.max(1, j - (badChar[c] || m))`; every entry is at least 1, so
      the fallback m applies to characters outside the table only. */
  method PageShift(badChar: map<char, int>, pattern: string, j: int, c: char) returns (shift: int)
    requires 0 <= j < |pattern|
    requires forall c :: c in badChar ==> badChar[c] == |pattern| - 1 - LastBelow(pattern, c, |pattern| - 1)
    requires forall c :: c !in badChar ==> LastBelow(pattern, c, |pattern| - 1) == -1
    ensures shift == Shift(HorspoolTableRule, pattern, j, c)
  {
    var entry := if c in badChar then badChar[c] else |pattern|;
    shift := Max(1, j - entry);
  }

  /** One pass of the page's scan loop: compare the alignment from the
      right, record a full match and move by one, or move by the shift. */
  method ScanAlignment(text: string, pattern: string, badChar: map<char, int>, matches: seq<int>, s: int, ghost total: seq<int>)
      returns (matches': seq<int>, s': int)
    requires 0 < |pattern| && 0 <= s <= |text| - |pattern|
    requires forall c :: c in badChar ==> badChar[c] == |pattern| - 1 - LastBelow(pattern, c, |pattern| - 1)
    requires forall c :: c !in badChar ==> LastBelow(pattern, c, |pattern| - 1) == -1
    requires total == matches + BoyerMooreRun(text, pattern, HorspoolTableRule, s)
    ensures s < s'
    ensures total == matches' + BoyerMooreRun(text, pattern, HorspoolTableRule, s')
  {
    var j := CompareFromRight(text, pattern, s);
    if j < 0 {
      RunMatchStep(text, pattern, HorspoolTableRule, s, matches);
      matches' := matches + [s];
      s' := s + 1;
    } else {
      RunShiftStep(text, pattern, HorspoolTableRule, s, j, matches);
      var shift := PageShift(badChar, pattern, j, text[s + j]);
      matches' := matches;
      s' := s + shift;
    }
  }

  /** boyerMooreSearch as the page writes it: after a mismatch at j against
      c, the shift is max(1, j - (badChar[c] || m)), combining the
      table of the last-character (Horspool) method with the bad-character
      rule. Every reported start is an occurrence, but occurrences can be
      skipped (see HorspoolTableRuleSkips). */
  method BoyerMooreSearch(text: string, pattern: string) returns (matches: seq<int>)
    requires |text| > 0 && |pattern| > 0
    ensures matches == BoyerMooreRun(text, pattern, HorspoolTableRule, 0)
    ensures Increasing(matches) && forall s :: s in matches ==> Occurs(text, pattern, s)
  {
    var n, m := |text|, |pattern|;
    var badChar := BuildBadCharTable(pattern);
    matches := [];
    var s := 0;
    ghost var total := BoyerMooreRun(text, pattern, HorspoolTableRule, 0);
    assert total == matches + total;
    while s <= n - m
      invariant 0 <= s
      invariant total == matches + BoyerMooreRun(text, pattern, HorspoolTableRule, s)
      decreases n - s
    {
      matches, s := ScanAlignment(text, pattern, badChar, matches, s, total);
    }
    RunEnd(text, pattern, HorspoolTableRule, s, matches);
    BoyerMooreRunSound(text, pattern, HorspoolTableRule, 0);
  }

  /** On "AAAAAB" with pattern "AAAAB" the page's rule shifts by 3 after the
      first mismatch and reports nothing, although the pattern occurs at 1. */
  lemma HorspoolTableRuleSkips()
    ensures Occurs("AAAAAB", "AAAAB", 1)
    ensures BoyerMooreRun("AAAAAB", "AAAAB", HorspoolTableRule, 0) == []
  {
    var text, p := "AAAAAB", "AAAAB";
    assert MismatchAt(text, p, 0, 4) == 4;
    assert LastBelow(p, 'A', 4) == 3;
    assert Shift(HorspoolTableRule, p, 4, 'A') == 3;
  }

  // --------------------------------------------------------- Rabin-Karp

  /** The value of s as a base-256 numeral, first character most significant. */
  function Numeral(s: string): int {
    if s == [] then 0 else 256 * Numeral(s[..|s| - 1]) + s[|s| - 1] as int
  }

  function Pow(b: int, e: nat): int {
    if e == 0 then 1 else b * Pow(b, e - 1)
  }

  /** The hash of a window: its numeral modulo 101. */
  function Hash(s: string): int {
    Numeral(s) % 101
  }

  /** JavaScript's % on integers, which truncates toward zero. */
  function JsRem(a: int, b: int): int
    requires b > 0
  {
    if a >= 0 then a % b else -((-a) % b)
  }

  /** The source's repair of a negative remainder yields the mathematical
      residue in [0, 101). */
  lemma JsRemRepair(a: int)
    ensures -101 < JsRem(a, 101) < 101
    ensures (if JsRem(a, 101) < 0 then JsRem(a, 101) + 101 else JsRem(a, 101)) == a % 101
  {
    if a < 0 {
      var q, r := (-a) / 101, (-a) % 101;
      assert -a == 101 * q + r && 0 <= r < 101;
      if r == 0 {
        assert a == 101 * -q;
      } else {
        assert a == 101 * (-q - 1) + (101 - r);
      }
    }
  }

  /** One step of the hash loops, reducing the running value first. */
  lemma HornerMod(v: int, c: int)
    ensures (256 * (v % 101) + c) % 101 == (256 * v + c) % 101
  {
  }

  lemma {:induction false} NumeralFirst(s: string)
    requires |s| > 0
    ensures Numeral(s) == (s[0] as int) * Pow(256, |s| - 1) + Numeral(s[1..])
    decreases |s|
  {
    if |s| > 1 {
      var k := |s| - 1;
      NumeralFirst(s[..k]);
      assert s[..k][0] == s[0] && s[..k][1..] == s[1..k];
      assert s[1..][..|s[1..]| - 1] == s[1..k];
      assert Pow(256, k) == 256 * Pow(256, k - 1);
      assert 256 * ((s[0] as int) * Pow(256, k - 1)) == (s[0] as int) * Pow(256, k);
    } else {
      assert s[1..] == [];
    }
  }

  /** Sliding a window by one character: drop the first character's weight,
      shift by the base and add the new character. */
  lemma NumeralRoll(w: string, c: char, v: string)
    requires |w| > 0 && v == w[1..] + [c]
    ensures Numeral(v) == 256 * (Numeral(w) - (w[0] as int) * Pow(256, |w| - 1)) + c as int
  {
    NumeralFirst(w);
    assert v[..|v| - 1] == w[1..];
  }

  /** The rolling update computes the next window's hash from the residues
      of the current hash and of 256^(m-1). */
  lemma RollMod(hv: int, a: int, h: int, b: int, c0: int, c1: int)
    requires hv % 101 == a % 101 && h % 101 == b % 101
    ensures (256 * (hv - c0 * h) + c1) % 101 == (256 * (a - c0 * b) + c1) % 101
  {
    var kh := hv / 101 - a / 101;
    var kb := h / 101 - b / 101;
    assert hv - a == 101 * kh;
    assert h - b == 101 * kb;
    assert c0 * h == c0 * b + 101 * (c0 * kb);
    assert 256 * (hv - c0 * h) + c1 == 256 * (a - c0 * b) + c1 + 101 * (256 * kh - 256 * (c0 * kb));
  }

  /** The hash of the first window, and of ever longer prefixes. */
  method PrefixHash(s: string, m: int) returns (hash: int)
    requires 0 <= m <= |s|
    ensures hash == Hash(s[..m])
  {
    hash := 0;
    var i := 0;
    while i < m
      invariant 0 <= i <= m && hash == Hash(s[..i])
    {
      assert s[..i + 1][..i] == s[..i];
      HornerMod(Numeral(s[..i]), s[i] as int);
      hash := (256 * hash + s[i] as int) % 101;
      i := i + 1;
    }
  }

  /** The comparison of rabinKarpSearch after equal hashes. */
  method CheckWindow(text: string, pattern: string, i: int) returns (found: bool)
    requires 0 <= i && i + |pattern| <= |text|
    ensures found <==> Occurs(text, pattern, i)
  {
    var j := MatchLength(text, pattern, i);
    found := j == |pattern|;
  }

  /** The rolling update, taken modulo 101, is the next window's hash. */
  lemma RollHash(text: string, m: int, i: int, textHash: int, h: int)
    requires 0 < m && 0 <= i && i + m < |text|
    requires textHash == Hash(text[i..i + m]) && h == Pow(256, m - 1) % 101
    ensures (256 * (textHash - (text[i] as int) * h) + text[i + m] as int) % 101 == Hash(text[i + 1..i + 1 + m])
  {
    WindowRoll(text, m, i);
    RollResidues(textHash, h, Numeral(text[i..i + m]), Pow(256, m - 1), text[i] as int, text[i + m] as int,
      Numeral(text[i + 1..i + 1 + m]));
  }

  /** The numerals of two neighbouring windows. */
  lemma WindowRoll(text: string, m: int, i: int)
    requires 0 < m && 0 <= i && i + m < |text|
    ensures Numeral(text[i + 1..i + 1 + m])
      == 256 * (Numeral(text[i..i + m]) - (text[i] as int) * Pow(256, m - 1)) + text[i + m] as int
  {
    var w, v := text[i..i + m], text[i + 1..i + 1 + m];
    assert v == w[1..] + [text[i + m]];
    NumeralRoll(w, text[i + m], v);
  }

  /** The same on plain numbers: the update on residues agrees, modulo 101,
      with the update on the full values. */
  lemma RollResidues(hv: int, h: int, a: int, b: int, c0: int, c1: int, next: int)
    requires hv == a % 101 && h == b % 101 && next == 256 * (a - c0 * b) + c1
    ensures (256 * (hv - c0 * h) + c1) % 101 == next % 101
  {
    ModTwice(a);
    ModTwice(b);
    RollMod(hv, a, h, b, c0, c1);
  }

  lemma ModTwice(x: int)
    ensures (x % 101) % 101 == x % 101
  {
  }

  /** The rolling update of rabinKarpSearch, JavaScript remainder included:
      the window at i + 1 gets its hash, in [0, 101). */
  method NextHash(text: string, m: int, i: int, textHash: int, h: int) returns (next: int)
    requires 0 < m && 0 <= i && i + m < |text|
    requires textHash == Hash(text[i..i + m]) && h == Pow(256, m - 1) % 101
    ensures next == Hash(text[i + 1..i + 1 + m]) && 0 <= next < 101
  {
    var x := 256 * (textHash - (text[i] as int) * h) + text[i + m] as int;
    RollHash(text, m, i, textHash, h);
    JsRemRepair(x);
    next := JsRem(x, 101);
    if next < 0 {
      next := next + 101;
    }
  }

  /** rabinKarpSearch with base 256 and prime 101: h = 256^(m-1) mod 101;
      a window is compared character by character only when its rolling
      hash equals the pattern's. So a reported start is always an occurrence,
      and since equal windows have equal hashes none is missed. A pattern
      longer than the text has no window to check. */
  method RabinKarpSearch(text: string, pattern: string) returns (matches: seq<int>)
    requires |text| > 0 && |pattern| > 0
    ensures AllOccurrences(text, pattern, matches)
  {
    var n, m := |text|, |pattern|;
    matches := [];
    if m > n {
      return;
    }
    var h := 1;
    var k := 0;
    while k < m - 1
      invariant 0 <= k <= m - 1 && h == Pow(256, k) % 101
    {
      HornerMod(Pow(256, k), 0);
      h := (h * 256) % 101;
      k := k + 1;
    }
    var patternHash := PrefixHash(pattern, m);
    assert pattern[..m] == pattern;
    var textHash := PrefixHash(text, m);
    var i := 0;
    while i <= n - m
      invariant 0 <= i <= n - m + 1 && Increasing(matches)
      invariant i <= n - m ==> textHash == Hash(text[i..i + m])
      invariant forall s :: s in matches <==> 0 <= s < i && Occurs(text, pattern, s)
    {
      if Occurs(text, pattern, i) {
        assert text[i..i + m] == pattern;
      }
      if patternHash == textHash {
        var found := CheckWindow(text, pattern, i);
        if found {
          IncreasingAppend(matches, i);
          matches := matches + [i];
        }
      }
      if i < n - m {
        textHash := NextHash(text, m, i, textHash, h);
      }
      i := i + 1;
    }
  }
}
