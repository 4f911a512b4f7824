/** The string-matching visualizer: Knuth-Morris-Pratt and Boyer-Moore
    (bad-character rule only), each returning the starts of its 'found'
    steps. The visualizer runs them only when neither the text nor the
    pattern is blank, after upper-casing both. */
module StringMatchingVisualizer {
  import opened Common
  import opened StringMatching

  /** kmpSearch: a matching character advances both indices, and a full
      match is recorded at once; a mismatch falls back through the LPS array
      or, at pattern index 0, moves on in the text. */
  method KmpSearch(text: string, pattern: string) returns (foundMatches: seq<int>)
    requires |text| > 0 && |pattern| > 0
    ensures AllOccurrences(text, pattern, foundMatches)
  {
    var lpsArray := ComputeLps(pattern);
    var lps := lpsArray[..];
    var textIndex, patternIndex := 0, 0;
    foundMatches := [];
    KmpStart(text, pattern, lps);
    while textIndex < |text|
      invariant patternIndex < |pattern| && KmpState(text, pattern, lps, textIndex, patternIndex, foundMatches)
      decreases 2 * (|text| - textIndex) + patternIndex
    {
      if text[textIndex] == pattern[patternIndex] {
        KmpAdvance(text, pattern, lps, textIndex, patternIndex, foundMatches);
        textIndex, patternIndex := textIndex + 1, patternIndex + 1;
        if patternIndex == |pattern| {
          KmpFound(text, pattern, lps, textIndex, foundMatches);
          foundMatches := foundMatches + [textIndex - |pattern|];
          patternIndex := lps[patternIndex - 1];
        }
      } else {
        if patternIndex != 0 {
          KmpFallback(text, pattern, lps, textIndex, patternIndex, foundMatches);
          patternIndex := lps[patternIndex - 1];
        } else {
          KmpSkip(text, pattern, lps, textIndex, foundMatches);
          textIndex := textIndex + 1;
        }
      }
    }
    KmpDone(text, pattern, lps, patternIndex, foundMatches);
  }

  /** `Math.max(1, j - (badChar.get(c) || -1))`: a missing entry and an
      entry 0 both count as -1. */
  method FalsyZeroShift(badChar: map<char, int>, pattern: string, j: int, c: char) returns (shift: int)
    requires 0 <= j < |pattern|
    requires forall c :: c in badChar <==> c in pattern
    requires forall c :: c in badChar ==> badChar[c] == LastBelow(pattern, c, |pattern|)
    ensures shift == Shift(FalsyZeroRule, pattern, j, c)
  {
    var badCharShift := if c in badChar && badChar[c] != 0 then badChar[c] else -1;
    shift := Max(1, j - badCharShift);
  }

  /** One pass of the visualizer's scan loop: compare the alignment from
      the right, record a full match and move by one, or move by the
      shift. */
  method ScanAlignment(text: string, pattern: string, badChar: map<char, int>, foundMatches: seq<int>, textIndex: int, ghost total: seq<int>)
      returns (foundMatches': seq<int>, textIndex': int)
    requires 0 < |pattern| && 0 <= textIndex <= |text| - |pattern|
    requires forall c :: c in badChar <==> c in pattern
    requires forall c :: c in badChar ==> badChar[c] == LastBelow(pattern, c, |pattern|)
    requires total == foundMatches + BoyerMooreRun(text, pattern, FalsyZeroRule, textIndex)
    ensures textIndex < textIndex'
    ensures total == foundMatches' + BoyerMooreRun(text, pattern, FalsyZeroRule, textIndex')
  {
    var patternIndex := CompareFromRight(text, pattern, textIndex);
    if patternIndex < 0 {
      RunMatchStep(text, pattern, FalsyZeroRule, textIndex, foundMatches);
      foundMatches' := foundMatches + [textIndex];
      textIndex' := textIndex + 1;
    } else {
      RunShiftStep(text, pattern, FalsyZeroRule, textIndex, patternIndex, foundMatches);
      var shift := FalsyZeroShift(badChar, pattern, patternIndex, text[textIndex + patternIndex]);
      foundMatches' := foundMatches;
      textIndex' := textIndex + shift;
    }
  }

  /** boyerMooreSearch as the visualizer writes it: the shift is
      max(1, j - (badChar.get(c) || -1)), so a character whose last index is
      0 is treated as absent from the pattern. Every reported start is an
      occurrence, but occurrences can be skipped (see FalsyZeroRuleSkips). */
  method BoyerMooreSearch(text: string, pattern: string) returns (foundMatches: seq<int>)
    requires |text| > 0 && |pattern| > 0
    ensures foundMatches == BoyerMooreRun(text, pattern, FalsyZeroRule, 0)
    ensures Increasing(foundMatches) && forall s :: s in foundMatches ==> Occurs(text, pattern, s)
  {
    var n, m := |text|, |pattern|;
    var badChar := BadCharTable(pattern);
    foundMatches := [];
    var textIndex := 0;
    ghost var total := BoyerMooreRun(text, pattern, FalsyZeroRule, 0);
    assert total == foundMatches + total;
    while textIndex <= n - m
      invariant 0 <= textIndex
      invariant total == foundMatches + BoyerMooreRun(text, pattern, FalsyZeroRule, textIndex)
      decreases n - textIndex
    {
      foundMatches, textIndex := ScanAlignment(text, pattern, badChar, foundMatches, textIndex, total);
    }
    RunEnd(text, pattern, FalsyZeroRule, textIndex, foundMatches);
    BoyerMooreRunSound(text, pattern, FalsyZeroRule, 0);
  }

  /** On "AAB" with pattern "AB" the mismatching 'A' has last index 0, read
      as absent: the scan shifts by 2 and reports nothing, although the
      pattern occurs at 1. */
  lemma FalsyZeroRuleSkips()
    ensures Occurs("AAB", "AB", 1)
    ensures BoyerMooreRun("AAB", "AB", FalsyZeroRule, 0) == []
  {
    var text, p := "AAB", "AB";
    assert MismatchAt(text, p, 0, 1) == 1;
    assert LastBelow(p, 'A', 2) == 0;
    assert Shift(FalsyZeroRule, p, 1, 'A') == 2;
  }
}
