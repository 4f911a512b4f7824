/** The Z-algorithm screen: the pattern, a '$' separator and the text are
    joined into one string, its Z array is filled left to right while a
    Z-box [left, right] remembers the rightmost stretch known to repeat the
    string's prefix, and the pattern occurs wherever a Z value equals the
    pattern's length. */
module ZAlgorithmPage {
  import opened Common
  import opened StringMatching

  /** s[i..i+z] repeats the prefix s[..z]. */
  predicate PrefixMatch(s: string, i: int, z: int) {
    0 <= i && 0 <= z && i + z <= |s| && forall k :: 0 <= k < z ==> s[k] == s[i + k]
  }

  /** z is the Z value of s at i: the match with the prefix cannot be extended. */
  predicate IsZ(s: string, i: int, z: int) {
    PrefixMatch(s, i, z) && (i + z < |s| ==> s[z] != s[i + z])
  }

  /** z is the whole Z array of s, with the conventional Z[0] = 0. */
  ghost predicate IsZArray(s: string, z: seq<int>) {
    |z| == |s| && (|s| > 0 ==> z[0] == 0) && forall i :: 1 <= i < |s| ==> IsZ(s, i, z[i])
  }

  /** The Z value is the longest common prefix of s and s[i..]: every prefix
      match is at most as long, and it is uniquely determined. */
  lemma ZIsLongest(s: string, i: int, z: int, z': int)
    requires IsZ(s, i, z) && PrefixMatch(s, i, z')
    ensures z' <= z
  {
  }

  lemma ZUnique(s: string, i: int, z: int, z': int)
    requires IsZ(s, i, z) && IsZ(s, i, z')
    ensures z == z'
  {
    ZIsLongest(s, i, z, z');
    ZIsLongest(s, i, z', z);
  }

  /** The Z-box: s[left..right] (inclusive) repeats s[0..right-left]. */
  ghost predicate ZBox(s: string, left: int, right: int) {
    0 <= left && right < |s| && forall k :: left <= k <= right ==> s[k] == s[k - left]
  }

  /** Inside the Z-box the value at the mirror index, cut off at the box's
      right end, is a prefix match that the extension loop may start from. */
  lemma MirrorStart(s: string, i: int, left: int, right: int, zm: int)
    requires ZBox(s, left, right) && left < i <= right
    requires PrefixMatch(s, i - left, zm)
    ensures PrefixMatch(s, i, Min(right - i + 1, zm))
  {
    var z0 := Min(right - i + 1, zm);
    forall k | 0 <= k < z0
      ensures s[k] == s[i + k]
    {
      assert s[i + k] == s[i + k - left];
    }
  }

  /** The Z-box after index i has been processed (page.tsx lines 91-99). */
  function NextBox(s: string, i: int, z: int, left: int, right: int): (box: (int, int))
    requires ZBox(s, left, right) && PrefixMatch(s, i, z)
    ensures ZBox(s, box.0, box.1)
    ensures box.1 == Max(right, i + z - 1)
    ensures box.1 > right ==> box.0 == i
  {
    if i + z - 1 > right then (i, i + z - 1) else (left, right)
  }

  /** The positions that findMatches reports from the Z values z[m+1..hi):
      every index whose Z value equals the pattern length m, converted back to a
      position in the text. */
  function Hits(z: seq<int>, m: nat, hi: int): seq<int>
    requires hi <= |z|
    decreases hi
  {
    if hi <= m + 1 then []
    else Hits(z, m, hi - 1) + (if z[hi - 1] == m then [hi - 1 - m - 1] else [])
  }

  /** Index x + m + 1 of z, below hi, holds the pattern length m. */
  ghost predicate HitAt(z: seq<int>, m: nat, hi: int, x: int) {
    0 <= x && x + m + 1 < hi && hi <= |z| && z[x + m + 1] == m
  }

  lemma {:induction false} HitsSpec(z: seq<int>, m: nat, hi: int)
    requires hi <= |z|
    ensures Increasing(Hits(z, m, hi))
    ensures forall x :: x in Hits(z, m, hi) <==> HitAt(z, m, hi, x)
    decreases hi
  {
    if hi > m + 1 {
      HitsSpec(z, m, hi - 1);
      HitsStep(z, m, hi, Hits(z, m, hi - 1));
    }
  }

  /** One more Z value: the hits grow by its position exactly when it equals m. */
  lemma HitsStep(z: seq<int>, m: nat, hi: int, prev: seq<int>)
    requires m + 1 < hi <= |z| && prev == Hits(z, m, hi - 1) && Increasing(prev)
    requires forall x :: x in prev <==> HitAt(z, m, hi - 1, x)
    ensures Increasing(Hits(z, m, hi))
    ensures forall x :: x in Hits(z, m, hi) <==> HitAt(z, m, hi, x)
  {
    var x0 := hi - 1 - m - 1;
    var next := Hits(z, m, hi);
    assert next == if z[hi - 1] == m then prev + [x0] else prev;
    if z[hi - 1] == m {
      IncreasingAppend(prev, x0);
    }
    HitMembers(z, m, hi, prev, next);
  }

  lemma HitMembers(z: seq<int>, m: nat, hi: int, prev: seq<int>, next: seq<int>)
    requires m + 1 < hi <= |z|
    requires forall x :: x in prev <==> HitAt(z, m, hi - 1, x)
    requires next == if z[hi - 1] == m then prev + [hi - 1 - m - 1] else prev
    ensures forall x :: x in next <==> HitAt(z, m, hi, x)
  {
    forall x
      ensures x in next <==> HitAt(z, m, hi, x)
    {
      assert HitAt(z, m, hi, x) <==> HitAt(z, m, hi - 1, x) || (x == hi - 1 - m - 1 && z[hi - 1] == m);
    }
  }

  /** Where the pattern, the separator and the text sit in s. */
  ghost predicate Layout(text: string, pattern: string, s: string) {
    |s| == |pattern| + 1 + |text| && s[|pattern|] == '$'
    && (forall t :: 0 <= t < |pattern| ==> s[t] == pattern[t])
    && (forall t :: 0 <= t < |text| ==> s[|pattern| + 1 + t] == text[t])
  }

  lemma CombinedLayout(text: string, pattern: string)
    ensures Layout(text, pattern, pattern + "$" + text)
  {
  }

  /** With the separator after the pattern, a Z value equal to the pattern
      length at a text index means the pattern occurs there. */
  lemma ZValueSound(text: string, pattern: string, s: string, zi: int, x: int)
    requires Layout(text, pattern, s) && 0 <= x < |text|
    requires PrefixMatch(s, x + |pattern| + 1, zi) && zi == |pattern|
    ensures Occurs(text, pattern, x)
  {
    var i := x + |pattern| + 1;
    forall t | 0 <= t < |pattern|
      ensures text[x + t] == pattern[t]
    {
      assert s[t] == s[i + t];
    }
  }

  /** When the text has no '$', an occurrence gives a Z value of exactly the
      pattern length. */
  lemma ZValueComplete(text: string, pattern: string, s: string, zi: int, x: int)
    requires Layout(text, pattern, s) && '$' !in text
    requires IsZ(s, x + |pattern| + 1, zi) && Occurs(text, pattern, x)
    ensures zi == |pattern|
  {
    var m, i := |pattern|, x + |pattern| + 1;
    assert PrefixMatch(s, i, m) by {
      forall t | 0 <= t < m
        ensures s[t] == s[i + t]
      {
        assert text[x + t] == pattern[t];
      }
    }
    ZIsLongest(s, i, zi, m);
    if i + m < |s| {
      assert s[i + m] == text[x + m] && text[x + m] in text;
    }
  }

  /** The Z value at the text position x decides whether the pattern occurs
      there (the converse needs a text without '$'). */
  ghost predicate ZDecides(text: string, pattern: string, z: seq<int>, x: int) {
    var i := x + |pattern| + 1;
    && 0 <= x && i < |z|
    && (z[i] == |pattern| ==> Occurs(text, pattern, x))
    && ('$' !in text && Occurs(text, pattern, x) ==> z[i] == |pattern|)
  }

  lemma ZValueOccurs(text: string, pattern: string, zi: int, x: int)
    requires 0 <= x < |text| && IsZ(pattern + "$" + text, x + |pattern| + 1, zi)
    ensures zi == |pattern| ==> Occurs(text, pattern, x)
    ensures '$' !in text && Occurs(text, pattern, x) ==> zi == |pattern|
  {
    var s := pattern + "$" + text;
    CombinedLayout(text, pattern);
    if zi == |pattern| {
      ZValueSound(text, pattern, s, zi, x);
    }
    if '$' !in text && Occurs(text, pattern, x) {
      ZValueComplete(text, pattern, s, zi, x);
    }
  }

  /** The match findMatches reports for the combined string's Z array. */
  lemma ZMatches(text: string, pattern: string, z: seq<int>)
    requires IsZArray(pattern + "$" + text, z)
    ensures Increasing(Hits(z, |pattern|, |z|))
    ensures forall x :: x in Hits(z, |pattern|, |z|) ==> Occurs(text, pattern, x)
    ensures '$' !in text && |pattern| > 0 ==> AllOccurrences(text, pattern, Hits(z, |pattern|, |z|))
  {
    forall x | 0 <= x < |text|
      ensures ZDecides(text, pattern, z, x)
    {
      ZEntry(pattern + "$" + text, z, x + |pattern| + 1);
      ZValueOccurs(text, pattern, z[x + |pattern| + 1], x);
    }
    HitsDecide(text, pattern, z);
  }

  /** Reading the hits off Z values that each decide their position. */
  lemma HitsDecide(text: string, pattern: string, z: seq<int>)
    requires |z| == |pattern| + 1 + |text|
    requires forall x :: 0 <= x < |text| ==> ZDecides(text, pattern, z, x)
    ensures Increasing(Hits(z, |pattern|, |z|))
    ensures forall x :: x in Hits(z, |pattern|, |z|) ==> Occurs(text, pattern, x)
    ensures '$' !in text && |pattern| > 0 ==> AllOccurrences(text, pattern, Hits(z, |pattern|, |z|))
  {
    var m := |pattern|;
    var hits := Hits(z, m, |z|);
    HitsSpec(z, m, |z|);
    forall x | x in hits
      ensures Occurs(text, pattern, x)
    {
      assert ZDecides(text, pattern, z, x);
    }
    if '$' !in text && m > 0 {
      forall x | Occurs(text, pattern, x)
        ensures x in hits
      {
        assert 0 <= x < |text|;
        assert ZDecides(text, pattern, z, x);
      }
    }
  }

  lemma ZEntry(s: string, z: seq<int>, i: int)
    requires IsZArray(s, z) && 1 <= i < |s|
    ensures IsZ(s, i, z[i])
  {
  }

  /** A '$' in the text can lengthen a Z value past the pattern length: for the
      text "a$" and the pattern "a" the Z array of "a$a$" is [0, 0, 2, 0], so
      the occurrence at 0 is not reported. */
  lemma SeparatorInTextHidesMatch()
    ensures IsZArray("a" + "$" + "a$", [0, 0, 2, 0])
    ensures Occurs("a$", "a", 0) && Hits([0, 0, 2, 0], 1, 4) == []
  {
    var s := "a" + "$" + "a$";
    assert s == ['a', '$', 'a', '$'];
    assert IsZ(s, 2, 2);
    assert IsZ(s, 1, 0);
    assert IsZ(s, 3, 0);
  }

  class ZAlgorithm {
    const text: string
    const pattern: string
    const combinedString: string
    const zArray: array<int>

    ghost predicate Valid()
      reads zArray
    {
      combinedString == pattern + "$" + text
      && IsZArray(combinedString, zArray[..])
    }

    /** Joins the strings and fills the Z array (page.tsx lines 41-47). */
    constructor (text: string, pattern: string)
      ensures this.text == text && this.pattern == pattern
      ensures combinedString == pattern + "$" + text
      ensures Valid()
    {
      this.text := text;
      this.pattern := pattern;
      combinedString := pattern + "$" + text;
      zArray := new int[|pattern| + 1 + |text|](_ => 0);
      new;
      RunZAlgorithm();
    }

    /** Fills zArray[1..] from left to right, starting each entry inside the
        current Z-box from its mirror and extending it character by character. */
    method RunZAlgorithm()
      requires zArray.Length == |combinedString|
      requires forall k :: 0 <= k < zArray.Length ==> zArray[k] == 0
      modifies zArray
      ensures IsZArray(combinedString, zArray[..])
    {
      var s := combinedString;
      var n := |s|;
      var left, right := 0, 0;
      if n == 0 {
        return;
      }
      for i := 1 to n
        invariant zArray[0] == 0
        invariant forall j :: 1 <= j < i ==> IsZ(s, j, zArray[j])
        invariant forall j :: i <= j < n ==> zArray[j] == 0
        invariant left < i && ZBox(s, left, right)
      {
        ExtendZ(s, zArray, i, left, right);
        left, right := NextBox(s, i, zArray[i], left, right).0, NextBox(s, i, zArray[i], left, right).1;
      }
    }

    /** The pattern's occurrences, read off the Z array (page.tsx lines
        110-124): always genuine occurrences, in ascending order, and all of
        them when the text holds no '$'. */
    method FindMatches() returns (matches: seq<int>)
      requires Valid()
      ensures matches == Hits(zArray[..], |pattern|, zArray.Length)
      ensures Increasing(matches)
      ensures forall x :: x in matches ==> Occurs(text, pattern, x)
      ensures '$' !in text && |pattern| > 0 ==> AllOccurrences(text, pattern, matches)
    {
      matches := [];
      var patternLength := |pattern|;
      var i := patternLength + 1;
      while i < zArray.Length
        invariant patternLength + 1 <= i <= zArray.Length
        invariant matches == Hits(zArray[..], patternLength, i)
      {
        if zArray[i] == patternLength {
          var textPosition := i - patternLength - 1;
          matches := matches + [textPosition];
        }
        i := i + 1;
      }
      ZMatches(text, pattern, zArray[..]);
    }
  }

  /** One entry of the Z array: the mirror start inside the box, then the
      extension loop (page.tsx lines 67-80). */
  method ExtendZ(s: string, z: array<int>, i: int, left: int, right: int)
    requires z.Length == |s| && 0 <= left < i < |s| && ZBox(s, left, right)
    requires z[0] == 0 && z[i] == 0
    requires forall j :: 1 <= j < i ==> IsZ(s, j, z[j])
    modifies z
    ensures z[..] == old(z[..])[i := z[i]]
    ensures IsZ(s, i, z[i])
  {
    if i <= right {
      var mirror := i - left;
      MirrorStart(s, i, left, right, z[mirror]);
      z[i] := Min(right - i + 1, z[mirror]);
    }
    while i + z[i] < |s| && s[z[i]] == s[i + z[i]]
      invariant z[..] == old(z[..])[i := z[i]]
      invariant PrefixMatch(s, i, z[i])
      decreases |s| - z[i]
    {
      z[i] := z[i] + 1;
    }
  }
}
