/** Huffman coding as the Huffman screen runs it: the characters of a text
    are counted, the two lightest nodes are merged until one tree is left,
    codes are read off the tree (0 for a left branch, 1 for a right one), and
    text is encoded with the codes and decoded by walking the tree. */
module Huffman {
  import opened Common

  datatype Node =
    | Leaf(character: char, frequency: nat)
    | Internal(frequency: nat, left: Node, right: Node)

  datatype Action = Initial | Select | Merge | Complete

  /** One entry of buildSteps; the description text and the node ids are
      left out. */
  datatype BuildStep = BuildStep(step: nat, nodes: seq<Node>, currentNodes: seq<Node>, action: Action, tree: Option<Node>)

  // ------------------------------------------------------ character counts

  /** How often c occurs in text. */
  function Count(text: string, c: char): nat {
    if |text| == 0 then 0
    else Count(text[..|text| - 1], c) + (if text[|text| - 1] == c then 1 else 0)
  }

  /** The distinct characters of text in order of first appearance: the key
      order of the frequency Map. */
  function Appearances(text: string): seq<char> {
    if |text| == 0 then []
    else
      var a := Appearances(text[..|text| - 1]);
      if text[|text| - 1] in a then a else a + [text[|text| - 1]]
  }

  lemma CountAppend(text: string, x: char, c: char)
    ensures Count(text + [x], c) == Count(text, c) + (if x == c then 1 else 0)
  {
    assert (text + [x])[..|text|] == text;
  }

  lemma {:induction false} CountAbsent(text: string, c: char)
    requires c !in text
    ensures Count(text, c) == 0
  {
    if |text| > 0 {
      assert forall d :: d in text[..|text| - 1] ==> d in text;
      CountAbsent(text[..|text| - 1], c);
    }
  }

  lemma AppearancesAppend(text: string, x: char)
    ensures Appearances(text + [x]) == if x in Appearances(text) then Appearances(text) else Appearances(text) + [x]
  {
    assert (text + [x])[..|text|] == text;
  }

  lemma DistinctSnoc(a: seq<char>, x: char)
    requires Distinct(a) && x !in a
    ensures Distinct(a + [x])
  {
    var b := a + [x];
    forall i, j | 0 <= i < j < |b|
      ensures b[i] != b[j]
    {
      assert b[i] == a[i];
      if j == |a| {
        assert a[i] in a;
      } else {
        assert b[j] == a[j];
      }
    }
  }

  lemma DistinctInit(cs: seq<char>)
    requires Distinct(cs) && |cs| > 0
    ensures Distinct(cs[..|cs| - 1]) && cs[|cs| - 1] !in cs[..|cs| - 1]
  {
    var init := cs[..|cs| - 1];
    forall i | 0 <= i < |init|
      ensures init[i] != cs[|cs| - 1]
    {
      assert init[i] == cs[i];
    }
  }

  /** The key order holds every character of the text exactly once. */
  lemma {:induction false} AppearancesSpec(text: string)
    ensures Distinct(Appearances(text))
    ensures forall c :: c in Appearances(text) <==> c in text
  {
    if |text| > 0 {
      var t, x := text[..|text| - 1], text[|text| - 1];
      AppearancesSpec(t);
      LastSplit(text);
      AppearancesAppend(t, x);
      if x !in Appearances(t) {
        DistinctSnoc(Appearances(t), x);
      }
      forall c
        ensures c in Appearances(text) <==> c in text
      {
        assert c in text <==> c in t || c == x;
      }
    }
  }

  /** The frequency Map after the counting loop has seen text. */
  ghost predicate Tallied(text: string, frequency: map<char, nat>) {
    (forall c :: c in frequency <==> c in text)
    && (forall c :: c in frequency ==> frequency[c] == Count(text, c))
  }

  lemma CountStep(text: string, x: char, frequency: map<char, nat>)
    requires Tallied(text, frequency)
    ensures Tallied(text + [x], frequency[x := (if x in frequency then frequency[x] else 0) + 1])
  {
    var f := frequency[x := (if x in frequency then frequency[x] else 0) + 1];
    forall c | c in f
      ensures f[c] == Count(text + [x], c)
    {
      CountAppend(text, x, c);
      if x !in frequency && c == x {
        CountAbsent(text, x);
      }
    }
    forall c
      ensures c in f <==> c in text + [x]
    {
      assert c in text + [x] <==> c in text || c == x;
    }
  }

  /** The counting loop of lines 76-79; chars is the Map's key order. */
  method CountFrequencies(text: string) returns (chars: seq<char>, frequency: map<char, nat>)
    ensures chars == Appearances(text) && Tallied(text, frequency)
  {
    chars, frequency := [], map[];
    for i := 0 to |text|
      invariant chars == Appearances(text[..i]) && Tallied(text[..i], frequency)
    {
      var c := text[i];
      assert text[..i + 1] == text[..i] + [c];
      AppearancesAppend(text[..i], c);
      AppearancesSpec(text[..i]);
      CountStep(text[..i], c, frequency);
      if c !in frequency {
        chars := chars + [c];
      }
      frequency := frequency[c := (if c in frequency then frequency[c] else 0) + 1];
    }
    assert text[..|text|] == text;
  }

  // ------------------------------------------------------ sums over the text

  /** The sum of w over the characters of text, one term per occurrence. */
  function Tally(text: string, w: char -> nat): nat {
    if |text| == 0 then 0 else w(text[0]) + Tally(text[1..], w)
  }

  lemma {:induction false} TallyAppend(text: string, x: char, w: char -> nat)
    ensures Tally(text + [x], w) == Tally(text, w) + w(x)
  {
    if |text| > 0 {
      assert (text + [x])[1..] == text[1..] + [x];
      TallyAppend(text[1..], x, w);
    }
  }

  /** The sum of count times w over the characters cs. */
  function WeightedSum(cs: seq<char>, text: string, w: char -> nat): nat {
    if |cs| == 0 then 0
    else WeightedSum(cs[..|cs| - 1], text, w) + Count(text, cs[|cs| - 1]) * w(cs[|cs| - 1])
  }

  lemma ProductStep(n: nat, k: nat)
    ensures (n + 1) * k == n * k + k
  {
  }

  lemma {:induction false} WeightedBump(cs: seq<char>, text: string, x: char, w: char -> nat)
    requires Distinct(cs)
    ensures WeightedSum(cs, text + [x], w) == WeightedSum(cs, text, w) + (if x in cs then w(x) else 0)
  {
    if |cs| > 0 {
      var init, c := cs[..|cs| - 1], cs[|cs| - 1];
      DistinctInit(cs);
      WeightedBump(init, text, x, w);
      CountAppend(text, x, c);
      LastSplit(cs);
      assert x in cs <==> x in init || x == c;
      if x == c {
        ProductStep(Count(text, c), w(c));
      }
    }
  }

  /** Weighting each distinct character by its count is summing over the
      text. */
  lemma {:induction false} WeightedTally(text: string, w: char -> nat)
    ensures WeightedSum(Appearances(text), text, w) == Tally(text, w)
  {
    if |text| > 0 {
      var t, x := text[..|text| - 1], text[|text| - 1];
      var a := Appearances(t);
      WeightedTally(t, w);
      LastSplit(text);
      AppearancesSpec(t);
      AppearancesAppend(t, x);
      TallyAppend(t, x, w);
      WeightedBump(a, t, x, w);
      if x !in a {
        CountAbsent(t, x);
        CountAppend(t, x, x);
        assert (a + [x])[..|a|] == a;
      }
    }
  }

  function One(c: char): nat {
    1
  }

  lemma {:induction false} TallyOne(text: string)
    ensures Tally(text, One) == |text|
  {
    if |text| > 0 {
      TallyOne(text[1..]);
    }
  }

  // ------------------------------------------------------ nodes and forests

  /** The leaves made from the frequency Map (lines 82-92). */
  function LeafNodes(cs: seq<char>, text: string): seq<Node> {
    if |cs| == 0 then [] else LeafNodes(cs[..|cs| - 1], text) + [Leaf(cs[|cs| - 1], Count(text, cs[|cs| - 1]))]
  }

  /** The sum of the frequencies. */
  function Weight(ws: seq<Node>): nat {
    if |ws| == 0 then 0 else ws[0].frequency + Weight(ws[1..])
  }

  /** The leaves of a tree, left to right. */
  function Leaves(n: Node): (r: seq<Node>)
    ensures forall x :: x in r ==> x.Leaf?
  {
    match n
    case Leaf(_, _) => [n]
    case Internal(_, l, r) => Leaves(l) + Leaves(r)
  }

  function AllLeaves(ws: seq<Node>): seq<Node> {
    if |ws| == 0 then [] else Leaves(ws[0]) + AllLeaves(ws[1..])
  }

  /** Every internal node weighs what its two children weigh together. */
  predicate WellFormed(n: Node) {
    match n
    case Leaf(_, _) => true
    case Internal(f, l, r) => f == l.frequency + r.frequency && WellFormed(l) && WellFormed(r)
  }

  ghost predicate Ascending(ws: seq<Node>) {
    forall i, j :: 0 <= i < j < |ws| ==> ws[i].frequency <= ws[j].frequency
  }

  lemma {:induction false} WeightAppend(a: seq<Node>, b: seq<Node>)
    ensures Weight(a + b) == Weight(a) + Weight(b)
  {
    if |a| > 0 {
      assert (a + b)[1..] == a[1..] + b;
      WeightAppend(a[1..], b);
    } else {
      assert a + b == b;
    }
  }

  lemma {:induction false} LeafNodesWeight(cs: seq<char>, text: string)
    ensures Weight(LeafNodes(cs, text)) == WeightedSum(cs, text, One)
  {
    if |cs| > 0 {
      var init, c := cs[..|cs| - 1], cs[|cs| - 1];
      LeafNodesWeight(init, text);
      WeightAppend(LeafNodes(init, text), [Leaf(c, Count(text, c))]);
    }
  }

  lemma {:induction false} LeafNodesShape(cs: seq<char>, text: string)
    ensures |LeafNodes(cs, text)| == |cs|
    ensures forall k :: 0 <= k < |cs| ==> LeafNodes(cs, text)[k] == Leaf(cs[k], Count(text, cs[k]))
  {
    if |cs| > 0 {
      LeafNodesShape(cs[..|cs| - 1], text);
    }
  }

  /** The leaves of the text weigh as much as the text is long. */
  lemma TextLeavesWeight(text: string)
    ensures Weight(LeafNodes(Appearances(text), text)) == |text|
  {
    LeafNodesWeight(Appearances(text), text);
    WeightedTally(text, One);
    TallyOne(text);
  }

  // ------------------------------------------------------ sorting the leaves

  /** x placed after every node at most as heavy: one step of a stable sort. */
  function InsertStable(r: seq<Node>, x: Node): seq<Node> {
    if |r| == 0 || x.frequency < r[0].frequency then [x] + r else [r[0]] + InsertStable(r[1..], x)
  }

  /** nodes.sort((a, b) => a.frequency - b.frequency), a stable sort. */
  function SortByFrequency(s: seq<Node>): seq<Node> {
    if |s| == 0 then [] else InsertStable(SortByFrequency(s[..|s| - 1]), s[|s| - 1])
  }

  lemma ConsAscending(h: Node, xs: seq<Node>)
    requires Ascending(xs) && (|xs| > 0 ==> h.frequency <= xs[0].frequency)
    ensures Ascending([h] + xs)
  {
    var s := [h] + xs;
    forall i, j | 0 <= i < j < |s|
      ensures s[i].frequency <= s[j].frequency
    {
      if i == 0 && j > 1 {
        assert s[j] == xs[j - 1];
      }
    }
  }

  lemma AscendingTail(xs: seq<Node>)
    requires Ascending(xs) && |xs| > 0
    ensures Ascending(xs[1..])
  {
    var t := xs[1..];
    forall i, j | 0 <= i < j < |t|
      ensures t[i].frequency <= t[j].frequency
    {
      assert t[i] == xs[i + 1] && t[j] == xs[j + 1];
    }
  }

  lemma {:induction false} InsertStableShape(r: seq<Node>, x: Node)
    ensures multiset(InsertStable(r, x)) == multiset(r) + multiset{x}
    ensures |InsertStable(r, x)| == |r| + 1
    ensures InsertStable(r, x)[0] == x || (|r| > 0 && InsertStable(r, x)[0] == r[0])
  {
    if !(|r| == 0 || x.frequency < r[0].frequency) {
      InsertStableShape(r[1..], x);
      assert r == [r[0]] + r[1..];
    }
  }

  lemma {:induction false} InsertStableSpec(r: seq<Node>, x: Node)
    requires Ascending(r)
    ensures Ascending(InsertStable(r, x)) && multiset(InsertStable(r, x)) == multiset(r) + multiset{x}
  {
    InsertStableShape(r, x);
    if !(|r| == 0 || x.frequency < r[0].frequency) {
      AscendingTail(r);
      InsertStableSpec(r[1..], x);
      InsertStableShape(r[1..], x);
      ConsAscending(r[0], InsertStable(r[1..], x));
    } else {
      ConsAscending(x, r);
    }
  }

  /** The sort orders by frequency and keeps every node. */
  lemma {:induction false} SortByFrequencySpec(s: seq<Node>)
    ensures Ascending(SortByFrequency(s)) && multiset(SortByFrequency(s)) == multiset(s)
  {
    if |s| > 0 {
      SortByFrequencySpec(s[..|s| - 1]);
      InsertStableSpec(SortByFrequency(s[..|s| - 1]), s[|s| - 1]);
      LastSplit(s);
    }
  }

  // ------------------------------------------------------ merging

  /** workingNodes with merged spliced in before the first node at least as
      heavy, or pushed at the end when there is none (lines 135-145). */
  function Reinsert(ws: seq<Node>, m: Node): seq<Node> {
    if |ws| == 0 || m.frequency <= ws[0].frequency then [m] + ws else [ws[0]] + Reinsert(ws[1..], m)
  }

  lemma {:induction false} ReinsertShape(ws: seq<Node>, m: Node)
    ensures |Reinsert(ws, m)| == |ws| + 1
    ensures Reinsert(ws, m)[0] == m || (|ws| > 0 && Reinsert(ws, m)[0] == ws[0])
    ensures multiset(Reinsert(ws, m)) == multiset(ws) + multiset{m}
  {
    if !(|ws| == 0 || m.frequency <= ws[0].frequency) {
      ReinsertShape(ws[1..], m);
      assert ws == [ws[0]] + ws[1..];
    }
  }

  lemma {:induction false} ReinsertSpec(ws: seq<Node>, m: Node)
    requires Ascending(ws)
    ensures Ascending(Reinsert(ws, m))
  {
    if !(|ws| == 0 || m.frequency <= ws[0].frequency) {
      AscendingTail(ws);
      ReinsertSpec(ws[1..], m);
      ReinsertShape(ws[1..], m);
      ConsAscending(ws[0], Reinsert(ws[1..], m));
    } else {
      ConsAscending(m, ws);
    }
  }

  lemma {:induction false} ReinsertWeight(ws: seq<Node>, m: Node)
    ensures Weight(Reinsert(ws, m)) == Weight(ws) + m.frequency
  {
    if !(|ws| == 0 || m.frequency <= ws[0].frequency) {
      ReinsertWeight(ws[1..], m);
    }
  }

  lemma {:induction false} ReinsertLeaves(ws: seq<Node>, m: Node)
    ensures multiset(AllLeaves(Reinsert(ws, m))) == multiset(AllLeaves(ws)) + multiset(Leaves(m))
  {
    if |ws| == 0 || m.frequency <= ws[0].frequency {
      assert ([m] + ws)[1..] == ws;
    } else {
      var rest := ws[1..];
      ReinsertLeaves(rest, m);
      assert ([ws[0]] + Reinsert(rest, m))[1..] == Reinsert(rest, m);
    }
  }

  /** The nodes still to be merged: ordered by frequency, weighing as much as
      the text is long, every one well formed, and together holding exactly
      one leaf per distinct character, weighted by its count. */
  ghost predicate Forest(ws: seq<Node>, text: string) {
    |ws| > 0 && Ascending(ws) && Weight(ws) == |text|
    && (forall k :: 0 <= k < |ws| ==> WellFormed(ws[k]))
    && multiset(AllLeaves(ws)) == multiset(LeafNodes(Appearances(text), text))
  }

  lemma {:induction false} LeavesOfLeaves(ws: seq<Node>)
    requires forall k :: 0 <= k < |ws| ==> ws[k].Leaf?
    ensures AllLeaves(ws) == ws
  {
    if |ws| > 0 {
      LeavesOfLeaves(ws[1..]);
      assert ws == [ws[0]] + ws[1..];
    }
  }

  /** The sorted leaves are the first forest. */
  lemma SortedForest(text: string)
    requires |text| > 0
    ensures var nodes := SortByFrequency(LeafNodes(Appearances(text), text));
      Forest(nodes, text) && |nodes| == |Appearances(text)|
      && forall k :: 0 <= k < |nodes| ==> nodes[k].Leaf?
  {
    var a := Appearances(text);
    var leaves := LeafNodes(a, text);
    var nodes := SortByFrequency(leaves);
    LeafNodesShape(a, text);
    AppearancesSpec(text);
    assert text[0] in a;
    SortByFrequencySpec(leaves);
    assert |nodes| == |leaves| by {
      assert |multiset(nodes)| == |multiset(leaves)|;
    }
    forall k | 0 <= k < |nodes|
      ensures nodes[k].Leaf?
    {
      assert nodes[k] in multiset(leaves);
    }
    LeavesOfLeaves(nodes);
    TextLeavesWeight(text);
    SortWeight(leaves);
  }

  lemma {:induction false} InsertStableWeight(r: seq<Node>, x: Node)
    ensures Weight(InsertStable(r, x)) == Weight(r) + x.frequency
  {
    if !(|r| == 0 || x.frequency < r[0].frequency) {
      InsertStableWeight(r[1..], x);
    }
  }

  /** Sorting keeps the total weight. */
  lemma {:induction false} SortWeight(s: seq<Node>)
    ensures Weight(SortByFrequency(s)) == Weight(s)
  {
    if |s| > 0 {
      SortWeight(s[..|s| - 1]);
      InsertStableWeight(SortByFrequency(s[..|s| - 1]), s[|s| - 1]);
      LastSplit(s);
      WeightAppend(s[..|s| - 1], [s[|s| - 1]]);
    }
  }

  lemma MergedLeaves(ws: seq<Node>, m: Node)
    requires |ws| > 1 && m.Internal? && m.left == ws[0] && m.right == ws[1]
    ensures multiset(AllLeaves(ws)) == multiset(AllLeaves(ws[2..])) + multiset(Leaves(m))
  {
    assert ws[1..][1..] == ws[2..];
  }

  lemma MergedWeight(ws: seq<Node>)
    requires |ws| > 1
    ensures Weight(ws) == ws[0].frequency + ws[1].frequency + Weight(ws[2..])
  {
    assert ws[1..][1..] == ws[2..];
  }

  lemma AscendingRest(ws: seq<Node>)
    requires Ascending(ws) && |ws| > 1
    ensures Ascending(ws[2..])
  {
    AscendingTail(ws);
    AscendingTail(ws[1..]);
    assert ws[1..][1..] == ws[2..];
  }

  /** Merging the two lightest nodes and putting the merge back keeps the
      forest, one node shorter. */
  lemma MergeKeepsForest(ws: seq<Node>, text: string)
    requires Forest(ws, text) && |ws| > 1
    ensures var m := Internal(ws[0].frequency + ws[1].frequency, ws[0], ws[1]);
      Forest(Reinsert(ws[2..], m), text) && |Reinsert(ws[2..], m)| == |ws| - 1
  {
    var m := Internal(ws[0].frequency + ws[1].frequency, ws[0], ws[1]);
    var rest := ws[2..];
    AscendingRest(ws);
    ReinsertSpec(rest, m);
    ReinsertShape(rest, m);
    ReinsertWeight(rest, m);
    MergedWeight(ws);
    ReinsertLeaves(rest, m);
    MergedLeaves(ws, m);
    MergedWellFormed(ws, m);
  }

  lemma MergedWellFormed(ws: seq<Node>, m: Node)
    requires |ws| > 1 && forall k :: 0 <= k < |ws| ==> WellFormed(ws[k])
    requires m == Internal(ws[0].frequency + ws[1].frequency, ws[0], ws[1])
    ensures forall k :: 0 <= k < |Reinsert(ws[2..], m)| ==> WellFormed(Reinsert(ws[2..], m)[k])
  {
    var rest := ws[2..];
    var next := Reinsert(rest, m);
    ReinsertShape(rest, m);
    assert WellFormed(ws[0]) && WellFormed(ws[1]);
    forall k | 0 <= k < |next|
      ensures WellFormed(next[k])
    {
      assert next[k] in multiset(rest) + multiset{m};
      if next[k] != m {
        var j :| 0 <= j < |rest| && rest[j] == next[k];
        assert rest[j] == ws[j + 2];
      }
    }
  }

  /** The insertion loop of lines 135-145. */
  method InsertMerged(working: seq<Node>, merged: Node) returns (r: seq<Node>)
    ensures r == Reinsert(working, merged)
  {
    var i := 0;
    while i < |working|
      invariant 0 <= i <= |working|
      invariant Reinsert(working, merged) == working[..i] + Reinsert(working[i..], merged)
    {
      if merged.frequency <= working[i].frequency {
        AppendAssociates(working[..i], [merged], working[i..]);
        return working[..i] + [merged] + working[i..];
      }
      assert working[i..][1..] == working[i + 1..];
      AppendAssociates(working[..i], [working[i]], Reinsert(working[i + 1..], merged));
      assert working[..i] + [working[i]] == working[..i + 1];
      i := i + 1;
    }
    assert working[..i] == working;
    return working + [merged];
  }

  /** One round of the while loop of lines 116-158 on the nodes: the two
      lightest are shifted off, merged, and the merge is put back in order;
      the forest is kept and shrinks by one. */
  method MergeLightest(working: seq<Node>, ghost text: string) returns (left: Node, right: Node, merged: Node, next: seq<Node>)
    requires Forest(working, text) && |working| > 1
    ensures left == working[0] && right == working[1] && merged == Internal(left.frequency + right.frequency, left, right)
    ensures next == Reinsert(working[2..], merged) && Forest(next, text) && |next| == |working| - 1
  {
    left := working[0];
    right := working[1];
    merged := Internal(left.frequency + right.frequency, left, right);
    next := InsertMerged(working[2..], merged);
    MergeKeepsForest(working, text);
  }

  // ------------------------------------------------------ codes

  /** The codes generateCodes records for the leaves under n reached by
      code: the path to each leaf, "0" for a tree that is a single leaf;
      a later leaf overwrites an earlier one with the same character. */
  function CodeTable(n: Node, code: string): map<char, string> {
    match n
    case Leaf(c, _) => map[c := if code == "" then "0" else code]
    case Internal(_, l, r) => CodeTable(l, code + "0") + CodeTable(r, code + "1")
  }

  /** The leaves hold no character twice. */
  ghost predicate DistinctChars(ls: seq<Node>) {
    forall i, j :: 0 <= i < j < |ls| && ls[i].Leaf? && ls[j].Leaf? ==> ls[i].character != ls[j].character
  }

  /** Bits that lead from the internal node n down to the leaf for c,
      passing internal nodes only. */
  ghost predicate LeadsTo(n: Node, p: string, c: char)
    decreases |p|
  {
    n.Internal? && |p| > 0
    && var child := if p[0] == '0' then n.left else n.right;
      if child.Leaf? then |p| == 1 && child.character == c else LeadsTo(child, p[1..], c)
  }

  /** A character has a code exactly when a leaf holds it. */
  lemma {:induction false} KeyLeaf(n: Node, code: string, c: char) returns (k: nat)
    requires c in CodeTable(n, code)
    ensures k < |Leaves(n)| && Leaves(n)[k].character == c
  {
    match n
    case Leaf(_, _) =>
      k := 0;
    case Internal(_, l, r) =>
      if c in CodeTable(r, code + "1") {
        var j := KeyLeaf(r, code + "1", c);
        k := |Leaves(l)| + j;
      } else {
        k := KeyLeaf(l, code + "0", c);
      }
  }

  lemma {:induction false} LeafKey(n: Node, code: string, x: Node)
    requires x in Leaves(n)
    ensures x.character in CodeTable(n, code)
  {
    match n
    case Leaf(_, _) =>
    case Internal(_, l, r) =>
      if x in Leaves(l) {
        LeafKey(l, code + "0", x);
      } else {
        LeafKey(r, code + "1", x);
      }
  }

  /** The code of a character is the path to its leaf. */
  lemma {:induction false} CodeLeads(n: Node, code: string, c: char) returns (p: string)
    requires n.Internal? && c in CodeTable(n, code)
    ensures CodeTable(n, code)[c] == code + p && LeadsTo(n, p, c)
  {
    var l, r := n.left, n.right;
    assert CodeTable(n, code) == CodeTable(l, code + "0") + CodeTable(r, code + "1");
    if c in CodeTable(r, code + "1") {
      if r.Leaf? {
        p := "1";
        assert code + "1" != "";
        assert CodeTable(r, code + "1") == map[r.character := code + "1"];
        assert LeadsTo(n, p, c);
      } else {
        var p' := CodeLeads(r, code + "1", c);
        p := "1" + p';
        AppendAssociates(code, "1", p');
        assert p[1..] == p';
      }
    } else {
      if l.Leaf? {
        p := "0";
        assert code + "0" != "";
        assert CodeTable(l, code + "0") == map[l.character := code + "0"];
        assert LeadsTo(n, p, c);
      } else {
        var p' := CodeLeads(l, code + "0", c);
        p := "0" + p';
        AppendAssociates(code, "0", p');
        assert p[1..] == p';
      }
    }
  }

  ghost predicate PrefixFree(t: map<char, string>) {
    forall c, d :: c in t && d in t && c != d ==> !(t[c] <= t[d])
  }

  lemma DistinctCharsSplit(a: seq<Node>, b: seq<Node>)
    requires DistinctChars(a + b)
    ensures DistinctChars(a) && DistinctChars(b)
    ensures forall i, j :: 0 <= i < |a| && 0 <= j < |b| && a[i].Leaf? && b[j].Leaf? ==> a[i].character != b[j].character
  {
    var s := a + b;
    forall i, j | 0 <= i < j < |a| && a[i].Leaf? && a[j].Leaf?
      ensures a[i].character != a[j].character
    {
      assert a[i] == s[i] && a[j] == s[j];
    }
    forall i, j | 0 <= i < j < |b| && b[i].Leaf? && b[j].Leaf?
      ensures b[i].character != b[j].character
    {
      assert b[i] == s[|a| + i] && b[j] == s[|a| + j];
    }
    forall i, j | 0 <= i < |a| && 0 <= j < |b| && a[i].Leaf? && b[j].Leaf?
      ensures a[i].character != b[j].character
    {
      assert a[i] == s[i] && b[j] == s[|a| + j];
    }
  }

  /** With no character on two leaves, every code starts with the path
      so far and no code is a prefix of another. */
  lemma {:induction false} CodesPrefixFree(n: Node, code: string)
    requires DistinctChars(Leaves(n))
    ensures PrefixFree(CodeTable(n, code))
    ensures forall c :: c in CodeTable(n, code) ==> code <= CodeTable(n, code)[c]
    ensures n.Internal? ==> forall c :: c in CodeTable(n, code) ==> |CodeTable(n, code)[c]| > |code|
  {
    match n
    case Leaf(_, _) =>
    case Internal(_, l, r) =>
      var c0, c1 := code + "0", code + "1";
      var tl, tr := CodeTable(l, c0), CodeTable(r, c1);
      DistinctCharsSplit(Leaves(l), Leaves(r));
      CodesPrefixFree(l, c0);
      CodesPrefixFree(r, c1);
      assert forall c :: c in tl ==> c !in tr by {
        forall c | c in tl && c in tr
          ensures false
        {
          var i := KeyLeaf(l, c0, c);
          var j := KeyLeaf(r, c1, c);
        }
      }
      SidesPrefixFree(code, tl, tr);
  }

  lemma SidesPrefixFree(code: string, tl: map<char, string>, tr: map<char, string>)
    requires PrefixFree(tl) && PrefixFree(tr) && forall c :: c in tl ==> c !in tr
    requires forall c :: c in tl ==> code + "0" <= tl[c]
    requires forall c :: c in tr ==> code + "1" <= tr[c]
    ensures PrefixFree(tl + tr)
    ensures forall c :: c in tl + tr ==> code <= (tl + tr)[c] && |(tl + tr)[c]| > |code|
  {
    var t := tl + tr;
    forall c | c in t
      ensures code <= t[c] && |t[c]| > |code|
    {
      var q := if c in tr then code + "1" else code + "0";
      assert q <= t[c];
      assert code <= q;
    }
    forall c, d | c in t && d in t && c != d
      ensures !(t[c] <= t[d])
    {
      if (c in tl) != (d in tl) {
        var bc := if c in tl then '0' else '1';
        var bd := if d in tl then '0' else '1';
        assert (code + [bc])[|code|] == bc && (code + [bd])[|code|] == bd;
        assert t[c][|code|] == bc && t[d][|code|] == bd;
      }
    }
  }

  // ------------------------------------------------------ encoding and decoding

  /** The codes of the characters of text one after the other; a character
      without a code contributes nothing (`|| ''`). */
  function Codewords(codes: map<char, string>, text: string): string {
    if |text| == 0 then "" else (if text[0] in codes then codes[text[0]] else "") + Codewords(codes, text[1..])
  }

  /** The length of the code of c, zero when it has none. */
  function CodeLength(codes: map<char, string>): char -> nat {
    c => if c in codes then |codes[c]| else 0
  }

  lemma {:induction false} CodewordsLength(codes: map<char, string>, text: string)
    ensures |Codewords(codes, text)| == Tally(text, CodeLength(codes))
  {
    if |text| > 0 {
      CodewordsLength(codes, text[1..]);
    }
  }

  /** encode (lines 183-187): nothing without codes or text. */
  function Encode(codes: map<char, string>, text: string): (r: string)
    ensures |r| == if |codes| == 0 then 0 else Tally(text, CodeLength(codes))
  {
    CodewordsLength(codes, text);
    if |codes| == 0 || |text| == 0 then "" else Codewords(codes, text)
  }

  /** The encoded length is the sum over the distinct characters of count
      times code length. */
  lemma EncodedLength(codes: map<char, string>, text: string)
    requires |codes| > 0
    ensures |Encode(codes, text)| == WeightedSum(Appearances(text), text, CodeLength(codes))
  {
    WeightedTally(text, CodeLength(codes));
  }

  function Prefixed(s: string, o: Option<string>): Option<string> {
    if o.None? then None else Some(s + o.value)
  }

  /** The decoding walk from current over bits: a leaf emits its character
      and the walk starts again at the root; reading a bit at a leaf is the
      TypeError of `current.left!.character` (None). */
  function Walk(root: Node, current: Node, bits: string): Option<string>
    decreases |bits|
  {
    if |bits| == 0 then Some("")
    else if current.Leaf? then None
    else
      var next := if bits[0] == '0' then current.left else current.right;
      if next.Leaf? then Prefixed([next.character], Walk(root, root, bits[1..]))
      else Walk(root, next, bits[1..])
  }

  /** decode (lines 189-210): nothing without a tree or bits. */
  function DecodeSpec(root: Option<Node>, encoded: string): Option<string> {
    if root.None? || |encoded| == 0 then Some("") else Walk(root.value, root.value, encoded)
  }

  lemma {:induction false} WalkPath(root: Node, current: Node, p: string, c: char, rest: string)
    requires LeadsTo(current, p, c)
    ensures Walk(root, current, p + rest) == Prefixed([c], Walk(root, root, rest))
    decreases |p|
  {
    var bits := p + rest;
    assert bits[0] == p[0];
    assert bits[1..] == p[1..] + rest;
    var next := if p[0] == '0' then current.left else current.right;
    if !next.Leaf? {
      WalkPath(root, next, p[1..], c, rest);
    }
  }

  /** Decoding the codes of a text with an internal root gives the text. */
  /** Every code of a tree with an internal root leads to its character. */
  lemma CodesLead(root: Node)
    requires root.Internal?
    ensures forall c :: c in CodeTable(root, "") ==> LeadsTo(root, CodeTable(root, "")[c], c)
  {
    forall c | c in CodeTable(root, "")
      ensures LeadsTo(root, CodeTable(root, "")[c], c)
    {
      var p := CodeLeads(root, "", c);
      assert "" + p == p;
    }
  }

  lemma CodewordsCons(codes: map<char, string>, text: string)
    requires |text| > 0 && text[0] in codes
    ensures Codewords(codes, text) == codes[text[0]] + Codewords(codes, text[1..])
  {
  }

  /** Decoding the codes of a text gives the text, when every code leads
      to its character. */
  lemma {:induction false} RoundTrip(root: Node, codes: map<char, string>, text: string)
    requires forall c :: c in text ==> c in codes && LeadsTo(root, codes[c], c)
    ensures Walk(root, root, Codewords(codes, text)) == Some(text)
  {
    if |text| > 0 {
      var c := text[0];
      assert c in text;
      assert forall d :: d in text[1..] ==> d in text;
      RoundTrip(root, codes, text[1..]);
      CodewordsCons(codes, text);
      WalkPath(root, root, codes[c], c, Codewords(codes, text[1..]));
      assert [c] + text[1..] == text;
    }
  }

  // ------------------------------------------------------ the class

  /** What buildTree makes of a non-empty text: a well-formed tree as heavy
      as the text is long, with one leaf per distinct character weighted by
      its count, internal exactly when there are two distinct characters or
      more. */
  ghost predicate Built(text: string, t: Node) {
    WellFormed(t) && t.frequency == |text|
    && multiset(Leaves(t)) == multiset(LeafNodes(Appearances(text), text))
    && (t.Internal? <==> |Appearances(text)| >= 2)
  }

  ghost predicate Numbered(steps: seq<BuildStep>) {
    forall k :: 0 <= k < |steps| ==> steps[k].step == k + 1
  }

  /** Two steps per merge between the initial and the final step, numbered
      from 1, all showing the sorted leaves. */
  ghost predicate StepsShape(steps: seq<BuildStep>, nodes: seq<Node>) {
    |nodes| > 0 && |steps| == 2 * |nodes| && Numbered(steps)
    && steps[0].action == Initial && steps[|steps| - 1].action == Complete
    && forall k :: 0 <= k < |steps| ==> steps[k].nodes == nodes
  }

  lemma NumberedAppend(steps: seq<BuildStep>, s: BuildStep)
    requires Numbered(steps) && s.step == |steps| + 1
    ensures Numbered(steps + [s])
  {
  }

  /** The leaves of a tree built from a text have distinct characters, and
      every character of the text has one. */
  lemma BuiltLeaves(text: string, t: Node)
    requires Built(text, t)
    ensures DistinctChars(Leaves(t))
    ensures forall c :: c in text ==> c in CodeTable(t, "")
  {
    TextHasCodes(text, t);
    BuiltDistinct(text, t);
  }

  lemma TextHasCodes(text: string, t: Node)
    requires multiset(Leaves(t)) == multiset(LeafNodes(Appearances(text), text))
    ensures forall c :: c in text ==> c in CodeTable(t, "")
  {
    var a := Appearances(text);
    var ls := LeafNodes(a, text);
    AppearancesSpec(text);
    LeafNodesShape(a, text);
    forall c | c in text
      ensures c in CodeTable(t, "")
    {
      var k :| 0 <= k < |a| && a[k] == c;
      assert ls[k] in multiset(Leaves(t));
      LeafKey(t, "", ls[k]);
    }
  }

  lemma BuiltDistinct(text: string, t: Node)
    requires multiset(Leaves(t)) == multiset(LeafNodes(Appearances(text), text))
    ensures DistinctChars(Leaves(t))
  {
    var a := Appearances(text);
    var ls := LeafNodes(a, text);
    AppearancesSpec(text);
    LeafNodesDistinct(a, text);
    PermutedDistinct(ls, Leaves(t));
    CharsTransfer(ls, Leaves(t));
  }

  lemma LeafNodesDistinct(a: seq<char>, text: string)
    requires Distinct(a)
    ensures Distinct(LeafNodes(a, text)) && DistinctChars(LeafNodes(a, text))
  {
    var ls := LeafNodes(a, text);
    LeafNodesShape(a, text);
    forall i, j | 0 <= i < j < |ls|
      ensures ls[i].character != ls[j].character
    {
      assert a[i] != a[j];
    }
  }

  /** Distinct nodes drawn from leaves with distinct characters have
      distinct characters. */
  lemma CharsTransfer(ls: seq<Node>, s: seq<Node>)
    requires DistinctChars(ls) && Distinct(s) && multiset(s) == multiset(ls)
    ensures DistinctChars(s)
  {
    forall i, j | 0 <= i < j < |s| && s[i].Leaf? && s[j].Leaf?
      ensures s[i].character != s[j].character
    {
      assert s[i] in multiset(ls) && s[j] in multiset(ls);
      var x :| 0 <= x < |ls| && ls[x] == s[i];
      var y :| 0 <= y < |ls| && ls[y] == s[j];
      assert x != y;
    }
  }

  /** The codes of a built tree are prefix-free, and a tree that is a
      single leaf gives its character the code "0". */
  lemma BuiltPrefixFree(text: string, t: Node)
    requires Built(text, t)
    ensures PrefixFree(CodeTable(t, ""))
    ensures t.Leaf? ==> CodeTable(t, "") == map[t.character := "0"]
  {
    BuiltLeaves(text, t);
    CodesPrefixFree(t, "");
  }

  /** With two distinct characters or more, decoding the encoded text gives
      the text back. */
  lemma BuiltRoundTrip(text: string, t: Node)
    requires |text| > 0 && Built(text, t) && |Appearances(text)| >= 2
    ensures DecodeSpec(Some(t), Encode(CodeTable(t, ""), text)) == Some(text)
  {
    BuiltLeaves(text, t);
    assert text[0] in CodeTable(t, "");
    CodesLead(t);
    RoundTrip(t, CodeTable(t, ""), text);
  }

  /** With one distinct character the tree is a single leaf, and decode
      reads its first bit at that leaf: the page's decode throws. */
  lemma SingleLeafDecodeFails(text: string, t: Node)
    requires |text| > 0 && Built(text, t) && |Appearances(text)| == 1
    ensures DecodeSpec(Some(t), Encode(CodeTable(t, ""), text)) == None
  {
    BuiltLeaves(text, t);
    var codes := CodeTable(t, "");
    assert text[0] in codes;
    assert |Codewords(codes, text)| > 0;
  }

  /** decode with a single-leaf tree handled: every bit is that leaf's
      character. */
  function DecodeCorrected(root: Option<Node>, encoded: string): Option<string> {
    if root.Some? && root.value.Leaf? then Some(seq(|encoded|, _ => root.value.character))
    else DecodeSpec(root, encoded)
  }

  lemma {:induction false} SingleCodewords(c: char, text: string)
    requires forall d :: d in text ==> d == c
    ensures Codewords(map[c := "0"], text) == seq(|text|, _ => '0')
  {
    if |text| > 0 {
      assert forall d :: d in text[1..] ==> d in text;
      SingleCodewords(c, text[1..]);
      assert text[0] in text;
      assert "0" + seq(|text| - 1, _ => '0') == seq(|text|, _ => '0');
    }
  }

  /** The corrected decode gives back every non-empty text. */
  lemma CorrectedRoundTrip(text: string, t: Node)
    requires |text| > 0 && Built(text, t)
    ensures DecodeCorrected(Some(t), Encode(CodeTable(t, ""), text)) == Some(text)
  {
    if t.Internal? {
      BuiltRoundTrip(text, t);
    } else {
      BuiltLeaves(text, t);
      var c := t.character;
      assert forall d :: d in text ==> d == c;
      SingleCodewords(c, text);
      forall i | 0 <= i < |text|
        ensures text[i] == c
      {
        assert text[i] in text;
      }
      assert seq(|text|, _ => c) == text;
    }
  }

  /** The HuffmanCoding class: the tree, the codes read off it and the
      build steps. */
  class HuffmanCoding {
    var root: Option<Node>
    var codes: map<char, string>
    var buildSteps: seq<BuildStep>

    constructor()
      ensures root == None && codes == map[] && buildSteps == []
    {
      root := None;
      codes := map[];
      buildSteps := [];
    }

    /** generateCodes (lines 169-181). */
    method GenerateCodes(node: Node, code: string)
      modifies this
      ensures codes == old(codes) + CodeTable(node, code)
      ensures root == old(root) && buildSteps == old(buildSteps)
      decreases node
    {
      match node {
        case Leaf(c, _) =>
          codes := codes[c := if code == "" then "0" else code];
        case Internal(_, l, r) =>
          ghost var before := codes;
          GenerateCodes(l, code + "0");
          GenerateCodes(r, code + "1");
          assert codes == before + (CodeTable(l, code + "0") + CodeTable(r, code + "1"));
      }
    }

    /** buildTree (lines 72-167): nothing for empty text; otherwise the
        tree, the steps that built it, and the codes of its leaves added to
        the codes already held. */
    method BuildTree(text: string) returns (tree: Option<Node>, steps: seq<BuildStep>)
      modifies this
      ensures |text| == 0 ==> tree == None && steps == [] && root == old(root) && codes == old(codes) && buildSteps == old(buildSteps)
      ensures |text| > 0 ==> tree.Some? && root == tree && buildSteps == steps && Finished(text, tree.value, steps)
      ensures |text| > 0 ==> codes == old(codes) + CodeTable(tree.value, "")
    {
      if |text| == 0 {
        return None, [];
      }
      var nodes := InitialNodes(text);
      var t;
      t, buildSteps := MergeAll(nodes, text);
      root := Some(t);
      GenerateCodes(t, "");
      tree, steps := root, buildSteps;
    }

    /** encode, with the codes this object holds. */
    function EncodeText(text: string): (r: string)
      reads this
      ensures |r| == if |codes| == 0 then 0 else Tally(text, CodeLength(codes))
    {
      Encode(codes, text)
    }

    /** The decode loop of lines 189-210; None where the page throws. */
    method Decode(encoded: string) returns (result: Option<string>)
      ensures result == DecodeSpec(root, encoded)
    {
      if root.None? || |encoded| == 0 {
        return Some("");
      }
      var r := root.value;
      var out := "";
      var current := r;
      PrefixedEmpty(Walk(r, r, encoded));
      assert encoded[0..] == encoded;
      for i := 0 to |encoded|
        invariant Prefixed(out, Walk(r, current, encoded[i..])) == Walk(r, r, encoded)
      {
        if current.Leaf? {
          return None;
        }
        assert encoded[i..][1..] == encoded[i + 1..];
        current := if encoded[i] == '0' then current.left else current.right;
        if current.Leaf? {
          AppendAssociates(out, [current.character], []);
          PrefixedTwice(out, [current.character], Walk(r, r, encoded[i + 1..]));
          out := out + [current.character];
          current := r;
        }
      }
      assert encoded[|encoded|..] == [];
      assert out + "" == out;
      return Some(out);
    }
  }

  /** The steps after the initial one and one pair per merge so far, all
      showing the sorted leaves. */
  ghost predicate Rounds(steps: seq<BuildStep>, nodes: seq<Node>, working: seq<Node>) {
    |working| <= |nodes| && |steps| == 1 + 2 * (|nodes| - |working|)
    && Numbered(steps) && steps[0].action == Initial
    && forall k :: 0 <= k < |steps| ==> steps[k].nodes == nodes
  }

  /** One round of the loop of lines 116-158 with its two steps: a select
      step showing the two lightest nodes and the lightest of the rest, and
      a merge step showing their merge. */
  method MergeRound(working: seq<Node>, steps: seq<BuildStep>, nodes: seq<Node>, stepCount: nat, ghost text: string)
    returns (next: seq<Node>, steps': seq<BuildStep>)
    requires Forest(working, text) && |working| > 1 && stepCount == |steps| + 1 && Rounds(steps, nodes, working)
    ensures Forest(next, text) && |next| == |working| - 1 && Rounds(steps', nodes, next)
    ensures |next| == 1 ==> next[0].Internal?
    ensures var m := Internal(working[0].frequency + working[1].frequency, working[0], working[1]);
      steps' == steps + [BuildStep(stepCount, nodes, working[..2], Select, if |working| == 2 then None else Some(working[2])),
                         BuildStep(stepCount + 1, nodes, [m], Merge, Some(m))]
  {
    var left, right, merged, rest := MergeLightest(working, text);
    var select := BuildStep(stepCount, nodes, [left, right], Select, if |working| == 2 then None else Some(working[2]));
    NumberedAppend(steps, select);
    var merge := BuildStep(stepCount + 1, nodes, [merged], Merge, Some(merged));
    NumberedAppend(steps + [select], merge);
    steps' := steps + [select] + [merge];
    assert steps' == steps + [select, merge];
    assert working[..2] == [left, right];
    if |rest| == 1 {
      assert rest == [merged];
    }
    next := rest;
  }

  /** The page's build handler (lines 491-522): a fresh object builds the
      tree, encodes the text and decodes the result; the decoded text is
      the input with two distinct characters or more, and decode throws
      with one. */
  method EncodeDecode(text: string) returns (tree: Node, encoded: string, decoded: Option<string>)
    requires |text| > 0
    ensures Built(text, tree) && encoded == Encode(CodeTable(tree, ""), text)
    ensures decoded == if |Appearances(text)| >= 2 then Some(text) else None
  {
    var coding := new HuffmanCoding();
    var t, steps := coding.BuildTree(text);
    tree := t.value;
    assert coding.codes == CodeTable(tree, "");
    encoded := coding.EncodeText(text);
    decoded := coding.Decode(encoded);
    if |Appearances(text)| >= 2 {
      BuiltRoundTrip(text, tree);
    } else {
      AppearancesSpec(text);
      assert text[0] in Appearances(text);
      SingleLeafDecodeFails(text, tree);
    }
  }

  lemma PrefixedEmpty(o: Option<string>)
    ensures Prefixed("", o) == o
  {
    if o.Some? {
      assert "" + o.value == o.value;
    }
  }

  lemma PrefixedTwice(a: string, b: string, o: Option<string>)
    ensures Prefixed(a, Prefixed(b, o)) == Prefixed(a + b, o)
  {
    if o.Some? {
      AppendAssociates(a, b, o.value);
    }
  }

  /** The last step closes the shape of the steps. */
  lemma CompleteShape(steps: seq<BuildStep>, nodes: seq<Node>, working: seq<Node>, complete: BuildStep)
    requires Rounds(steps, nodes, working) && |working| == 1
    requires complete.step == |steps| + 1 && complete.nodes == nodes && complete.action == Complete
    ensures StepsShape(steps + [complete], nodes)
  {
    NumberedAppend(steps, complete);
  }

  /** The one node left is the built tree. */
  lemma ForestOfOne(ws: seq<Node>, text: string, nodes: seq<Node>)
    requires Forest(ws, text) && |ws| == 1 && |nodes| == |Appearances(text)|
    requires ws[0].Internal? <==> |nodes| >= 2
    ensures Built(text, ws[0])
  {
    assert ws[1..] == [];
    assert Weight(ws) == ws[0].frequency + Weight([]);
    assert AllLeaves(ws) == Leaves(ws[0]) + [];
    assert Leaves(ws[0]) + [] == Leaves(ws[0]);
    assert WellFormed(ws[0]);
  }

  /** The sorted leaves of the text, the first forest. */
  ghost predicate Started(text: string, nodes: seq<Node>) {
    nodes == SortByFrequency(LeafNodes(Appearances(text), text))
    && Forest(nodes, text) && |nodes| == |Appearances(text)|
    && forall k :: 0 <= k < |nodes| ==> nodes[k].Leaf?
  }

  /** A built tree and the steps that built it, ending with the tree. */
  ghost predicate Finished(text: string, t: Node, steps: seq<BuildStep>) {
    Built(text, t) && StepsShape(steps, SortByFrequency(LeafNodes(Appearances(text), text)))
    && steps[|steps| - 1] == BuildStep(|steps|, steps[0].nodes, [t], Complete, Some(t))
  }

  /** Lines 76-99: the leaves of the text, sorted by frequency; they form
      the first forest. */
  method InitialNodes(text: string) returns (nodes: seq<Node>)
    requires |text| > 0
    ensures Started(text, nodes)
  {
    var chars, frequency := CountFrequencies(text);
    AppearancesSpec(text);
    nodes := MakeLeaves(chars, frequency, text);
    nodes := SortByFrequency(nodes);
    SortedForest(text);
  }

  /** Lines 101-165: the initial step, the merge rounds and the final step;
      the one node left is the tree. */
  method MergeAll(nodes: seq<Node>, ghost text: string) returns (t: Node, steps: seq<BuildStep>)
    requires Started(text, nodes)
    ensures Finished(text, t, steps)
  {
    steps := [BuildStep(1, nodes, [], Initial, None)];
    var stepCount := 2;
    var working := nodes;
    while |working| > 1
      invariant Forest(working, text) && 1 <= |working| <= |nodes|
      invariant |working| == 1 ==> (working[0].Internal? <==> |nodes| >= 2)
      invariant stepCount == |steps| + 1 && Rounds(steps, nodes, working)
      decreases |working|
    {
      working, steps := MergeRound(working, steps, nodes, stepCount, text);
      stepCount := stepCount + 2;
    }
    t := working[0];
    var complete := BuildStep(stepCount, nodes, [t], Complete, Some(t));
    CompleteShape(steps, nodes, working, complete);
    steps := steps + [complete];
    ForestOfOne(working, text, nodes);
  }

  /** The loop of lines 82-92 that turns the frequency Map into leaves. */
  method MakeLeaves(chars: seq<char>, frequency: map<char, nat>, ghost text: string) returns (nodes: seq<Node>)
    requires forall c :: c in chars ==> c in frequency && frequency[c] == Count(text, c)
    ensures nodes == LeafNodes(chars, text)
  {
    nodes := [];
    for k := 0 to |chars|
      invariant nodes == LeafNodes(chars[..k], text)
    {
      assert chars[..k + 1][..k] == chars[..k];
      nodes := nodes + [Leaf(chars[k], frequency[chars[k]])];
    }
    assert chars[..|chars|] == chars;
  }
}
