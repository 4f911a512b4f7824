/** The trie page: each node has a dictionary of children keyed by
    character and an end-of-word flag. `insertWord` walks a `current`
    pointer down the word and creates the children that are missing;
    `searchInTrie` walks the same way and reports whether the last node
    ends a word. Nodes are numbered in creation order, the root is 0, and
    `children` maps a node's number to its dictionary. */
module Trie {
  import opened Common

  const ROOT: nat := 0

  type Children = map<nat, map<char, nat>>

  /** The node reached from n by following the characters of w, if every
      edge on the way exists. */
  function Walk(children: Children, n: nat, w: string): Option<nat>
    decreases |w|
  {
    if w == [] then Some(n)
    else if n in children && w[0] in children[n] then Walk(children, children[n][w[0]], w[1..])
    else None
  }

  /** How many leading characters of w can be followed from n. */
  function Depth(children: Children, n: nat, w: string): (r: nat)
    ensures r <= |w|
    decreases |w|
  {
    if w != [] && n in children && w[0] in children[n] then 1 + Depth(children, children[n][w[0]], w[1..])
    else 0
  }

  /** The edge from n on c leads to a later node whose spelling is n's spelling
      followed by c. */
  ghost predicate EdgeAt(children: Children, spelling: map<nat, string>, size: nat, n: nat, c: char)
    requires n in children && c in children[n]
  {
    n < children[n][c] < size && n in spelling && children[n][c] in spelling && spelling[children[n][c]] == spelling[n] + [c]
  }

  /** Every edge leads to a later node, spelt by the path to it. */
  ghost predicate Edges(children: Children, spelling: map<nat, string>, size: nat) {
    forall n, c {:trigger EdgeAt(children, spelling, size, n, c)} :: n in children && c in children[n] ==> EdgeAt(children, spelling, size, n, c)
  }

  /** Every node is reached from the root by following its spelling. */
  ghost predicate Reached(children: Children, spelling: map<nat, string>) {
    forall n {:trigger ReachedAt(children, spelling, n)} :: n in spelling ==> ReachedAt(children, spelling, n)
  }

  ghost predicate ReachedAt(children: Children, spelling: map<nat, string>, n: nat) {
    n in spelling && Walk(children, ROOT, spelling[n]) == Some(n)
  }

  /** The nodes are 0 .. size - 1, each with a dictionary and a spelling, the
      root spelt by the empty string; edges and spellings agree. */
  ghost predicate WellFormed(children: Children, spelling: map<nat, string>, size: nat) {
    1 <= size
    && (forall n: nat :: n in children <==> n < size)
    && (forall n: nat :: n in spelling <==> n < size)
    && spelling[ROOT] == []
    && Edges(children, spelling, size)
    && Reached(children, spelling)
  }

  /** Every edge of children is still in children'. */
  ghost predicate Extends(children: Children, children': Children) {
    forall n, c :: n in children && c in children[n] ==> KeptAt(children, children', n, c)
  }

  ghost predicate KeptAt(children: Children, children': Children, n: nat, c: char)
    requires n in children && c in children[n]
  {
    n in children' && c in children'[n] && children'[n][c] == children[n][c]
  }

  /** Following u then v is following u + v. */
  lemma {:induction false} WalkAppend(children: Children, n: nat, u: string, v: string)
    ensures Walk(children, n, u + v) == if Walk(children, n, u).Some? then Walk(children, Walk(children, n, u).value, v) else None
    decreases |u|
  {
    if u == [] {
      assert u + v == v;
    } else if n in children && u[0] in children[n] {
      assert (u + v)[0] == u[0] && (u + v)[1..] == u[1..] + v;
      WalkAppend(children, children[n][u[0]], u[1..], v);
    }
  }

  /** Every node of spelling keeps its spelling in spelling'. */
  ghost predicate Keeps(spelling: map<nat, string>, spelling': map<nat, string>) {
    forall n :: n in spelling ==> n in spelling' && spelling'[n] == spelling[n]
  }

  lemma ExtendsRefl(children: Children)
    ensures Extends(children, children)
  {
    forall n, c | n in children && c in children[n]
      ensures KeptAt(children, children, n, c)
    {
    }
  }

  lemma ExtendsTrans(c0: Children, c1: Children, c2: Children)
    requires Extends(c0, c1) && Extends(c1, c2)
    ensures Extends(c0, c2)
  {
    forall n, c | n in c0 && c in c0[n]
      ensures KeptAt(c0, c2, n, c)
    {
      assert KeptAt(c0, c1, n, c);
      assert KeptAt(c1, c2, n, c);
    }
  }

  lemma KeepsTrans(s0: map<nat, string>, s1: map<nat, string>, s2: map<nat, string>)
    requires Keeps(s0, s1) && Keeps(s1, s2)
    ensures Keeps(s0, s2)
  {
  }

  /** The words spelt by the end-of-word nodes. */
  ghost function Spelt(endOfWord: set<nat>, spelling: map<nat, string>): set<string> {
    set n | n in endOfWord && n in spelling :: spelling[n]
  }

  /** Marking node n, spelt w, as a word end adds w and nothing else to
      the words, even when the spellings grew meanwhile. */
  lemma SpeltMark(endOfWord: set<nat>, spelling: map<nat, string>, spelling': map<nat, string>, n: nat)
    requires Keeps(spelling, spelling') && n in spelling' && forall e :: e in endOfWord ==> e in spelling
    ensures Spelt(endOfWord + {n}, spelling') == Spelt(endOfWord, spelling) + {spelling'[n]}
  {
  }

  lemma PrefixSnoc(w: string, i: nat)
    requires i < |w|
    ensures w[..i] + [w[i]] == w[..i + 1]
  {
  }

  /** Where the walk of `insertWord` stands after i characters of w, with
      c0 and size0 the trie before it: within the longest existing path
      nothing is created and `current` is the node the prefix leads to;
      past it, each character has created one childless node. */
  ghost predicate Followed(c0: Children, children: Children, size0: nat, size: nat, w: string, i: nat, current: nat)
    requires i <= |w|
  {
    var d := Depth(c0, ROOT, w);
    (i <= d ==> children == c0 && size == size0 && Walk(children, ROOT, w[..i]) == Some(current))
    && (i > d ==> size == size0 + (i - d) && size0 <= current && current in children && children[current] == map[])
  }

  /** One step of `insertWord`'s walk keeps `Followed`: c1, size1 and
      current are before the step, c2, size2 and next after it. */
  lemma FollowedStep(c0: Children, c1: Children, c2: Children, size0: nat, size1: nat, size2: nat, w: string, i: nat, current: nat, next: nat)
    requires i < |w| && Followed(c0, c1, size0, size1, w, i, current) && current in c1
    requires w[i] in c1[current] ==> c2 == c1 && size2 == size1 && next == c1[current][w[i]]
    requires w[i] !in c1[current] ==> size2 == size1 + 1 && next == size1 && next in c2 && c2[next] == map[]
    ensures Followed(c0, c2, size0, size2, w, i + 1, next)
  {
    var d := Depth(c0, ROOT, w);
    if i <= d {
      DepthStep(c1, ROOT, w, i, current);
      WalkAppend(c1, ROOT, w[..i], [w[i]]);
      PrefixSnoc(w, i);
    }
  }

  /** Adding edges keeps every walk that existed. */
  lemma {:induction false} WalkExtend(children: Children, children': Children, n: nat, w: string)
    requires Extends(children, children') && Walk(children, n, w).Some?
    ensures Walk(children', n, w) == Walk(children, n, w)
    decreases |w|
  {
    if w != [] {
      assert KeptAt(children, children', n, w[0]);
      WalkExtend(children, children', children[n][w[0]], w[1..]);
    }
  }

  /** A walk ends at the node spelt by the start's spelling followed by
      the word walked. */
  lemma {:induction false} WalkSpelling(children: Children, spelling: map<nat, string>, size: nat, n: nat, w: string)
    requires Edges(children, spelling, size) && n in spelling && Walk(children, n, w).Some?
    ensures Walk(children, n, w).value in spelling && spelling[Walk(children, n, w).value] == spelling[n] + w
    decreases |w|
  {
    if w == [] {
      assert spelling[n] + w == spelling[n];
    } else {
      var t := children[n][w[0]];
      assert EdgeAt(children, spelling, size, n, w[0]);
      WalkSpelling(children, spelling, size, t, w[1..]);
      assert spelling[n] + [w[0]] + w[1..] == spelling[n] + w;
    }
  }

  /** After walking the first i characters to p, the next edge exists
      exactly when i is below the depth of w. */
  lemma {:induction false} DepthStep(children: Children, n: nat, w: string, i: int, p: nat)
    requires 0 <= i < |w| && Walk(children, n, w[..i]) == Some(p)
    ensures (p in children && w[i] in children[p]) <==> i < Depth(children, n, w)
    decreases |w|
  {
    if i > 0 {
      assert w[..i][0] == w[0] && w[..i][1..] == w[1..][..i - 1];
      DepthStep(children, children[n][w[0]], w[1..], i - 1, p);
    }
  }

  /** The whole of w can be followed from n exactly when its depth is its
      length. */
  lemma {:induction false} WalkDepth(children: Children, n: nat, w: string)
    ensures Walk(children, n, w).Some? <==> Depth(children, n, w) == |w|
    decreases |w|
  {
    if w != [] && n in children && w[0] in children[n] {
      WalkDepth(children, children[n][w[0]], w[1..]);
    }
  }

  /** Spellings are unique: two nodes with the same spelling are the same. */
  lemma SpellingUnique(children: Children, spelling: map<nat, string>, n: nat, m: nat)
    requires Reached(children, spelling) && n in spelling && m in spelling && spelling[n] == spelling[m]
    ensures n == m
  {
    assert ReachedAt(children, spelling, n) && ReachedAt(children, spelling, m);
  }

  /** The dictionaries after node t is created, with no children, as the
      child of p on c. */
  function AddChild(children: Children, p: nat, c: char, t: nat): (r: Children)
    requires p in children && t !in children
    ensures r.Keys == children.Keys + {t} && c in r[p] && r[p][c] == t
  {
    var kids: map<char, nat> := children[p][c := t];
    var none: map<char, nat> := map[];
    children[p := kids][t := none]
  }

  /** Creating node t as the child of p on c keeps every edge. */
  lemma GrowKept(children: Children, p: nat, c: char, t: nat)
    requires p in children && t !in children && c !in children[p]
    ensures Extends(children, AddChild(children, p, c, t))
  {
    var children' := AddChild(children, p, c, t);
    forall n, d | n in children && d in children[n]
      ensures KeptAt(children, children', n, d)
    {
    }
  }

  /** Creating node `size`, spelt as its parent p followed by c, keeps
      every edge leading to a later node with the right spelling. */
  lemma GrowEdges(children: Children, spelling: map<nat, string>, size: nat, p: nat, c: char)
    requires Edges(children, spelling, size) && p in children && p in spelling && p < size
    requires size !in children && c !in children[p]
    ensures Edges(AddChild(children, p, c, size), spelling[size := spelling[p] + [c]], size + 1)
  {
    var children' := AddChild(children, p, c, size);
    var spelling': map<nat, string> := spelling[size := spelling[p] + [c]];
    forall n, d | n in children' && d in children'[n]
      ensures EdgeAt(children', spelling', size + 1, n, d)
    {
      if n != p || d != c {
        assert n in children && d in children[n];
        assert EdgeAt(children, spelling, size, n, d);
      }
    }
  }

  /** Creating node `size` keeps every node reached by its spelling, and
      the new node is reached by its parent's spelling followed by c. */
  lemma GrowReached(children: Children, spelling: map<nat, string>, size: nat, p: nat, c: char)
    requires Reached(children, spelling) && p in children && p in spelling
    requires size !in children && size !in spelling && c !in children[p]
    ensures Reached(AddChild(children, p, c, size), spelling[size := spelling[p] + [c]])
  {
    var children' := AddChild(children, p, c, size);
    var spelling': map<nat, string> := spelling[size := spelling[p] + [c]];
    GrowKept(children, p, c, size);
    forall n | n in spelling'
      ensures ReachedAt(children', spelling', n)
    {
      if n != size {
        assert ReachedAt(children, spelling, n);
        WalkExtend(children, children', ROOT, spelling[n]);
      } else {
        assert ReachedAt(children, spelling, p);
        WalkExtend(children, children', ROOT, spelling[p]);
        WalkAppend(children', ROOT, spelling[p], [c]);
      }
    }
  }

  /** Creating node `size` as the child of p on c keeps the trie well
      formed and every edge. */
  lemma Grow(children: Children, spelling: map<nat, string>, size: nat, p: nat, c: char)
    requires WellFormed(children, spelling, size) && p < size && c !in children[p]
    ensures var children' := AddChild(children, p, c, size);
      WellFormed(children', spelling[size := spelling[p] + [c]], size + 1) && Extends(children, children')
  {
    assert p in children && p in spelling && size !in children && size !in spelling;
    GrowKept(children, p, c, size);
    GrowEdges(children, spelling, size, p, c);
    GrowReached(children, spelling, size, p, c);
  }

  /** The nodes below n: those whose spelling starts with n's. */
  ghost function Sub(spelling: map<nat, string>, size: nat, n: nat): set<nat> {
    set m | m in spelling && n in spelling && spelling[n] <= spelling[m]
  }

  /** The nodes strictly below n that lie under one of n's edges labelled
      by a character of d. */
  ghost function Through(spelling: map<nat, string>, size: nat, n: nat, d: set<char>): set<nat> {
    set m | m in Sub(spelling, size, n) && n in spelling && m in spelling
      && |spelling[n]| < |spelling[m]| && spelling[m][|spelling[n]|] in d
  }

  /** u followed by c starts v exactly when u starts v and c comes next. */
  lemma PrefixThen(u: string, c: char, v: string)
    ensures u + [c] <= v <==> u <= v && |u| < |v| && v[|u|] == c
  {
    if u <= v && |u| < |v| && v[|u|] == c {
      assert v[..|u| + 1] == u + [c];
    }
  }

  /** Below n lie n itself and the nodes under its edges. */
  lemma SubSplit(children: Children, spelling: map<nat, string>, size: nat, n: nat)
    requires WellFormed(children, spelling, size) && n < size
    ensures Sub(spelling, size, n) == {n} + Through(spelling, size, n, children[n].Keys)
  {
    assert n in spelling && n in children;
    forall m | m in Sub(spelling, size, n)
      ensures m == n || m in Through(spelling, size, n, children[n].Keys)
    {
      var k := |spelling[n]|;
      if |spelling[m]| == k {
        assert spelling[m] == spelling[n];
        SpellingUnique(children, spelling, n, m);
      } else {
        var r := spelling[m][k..];
        assert spelling[m] == spelling[n] + r;
        assert ReachedAt(children, spelling, n) && ReachedAt(children, spelling, m);
        WalkAppend(children, ROOT, spelling[n], r);
        assert Walk(children, n, r) == Some(m);
        assert r[0] == spelling[m][k];
      }
    }
  }

  /** The nodes under the edge of n on c are exactly the nodes below its
      child on c, and none of them lies under another edge. */
  lemma ThroughAdd(children: Children, spelling: map<nat, string>, size: nat, n: nat, d: set<char>, c: char)
    requires WellFormed(children, spelling, size) && n < size && c in children[n] && c !in d
    ensures Through(spelling, size, n, d + {c}) == Through(spelling, size, n, d) + Sub(spelling, size, children[n][c])
    ensures Through(spelling, size, n, d) * Sub(spelling, size, children[n][c]) == {}
  {
    var t := children[n][c];
    assert n in children && EdgeAt(children, spelling, size, n, c);
    forall m | m in spelling
      ensures spelling[t] <= spelling[m] <==> spelling[n] <= spelling[m] && |spelling[n]| < |spelling[m]| && spelling[m][|spelling[n]|] == c
    {
      PrefixThen(spelling[n], c, spelling[m]);
    }
  }

  /** Nothing lies under no edge. */
  lemma ThroughNone(spelling: map<nat, string>, size: nat, n: nat)
    ensures Through(spelling, size, n, {}) == {}
  {
  }

  /** The deepest level seen so far, `deepest`, is the running maximum of
      `start` and the depths of the nodes in s. */
  ghost predicate Deepest(spelling: map<nat, string>, s: set<nat>, start: nat, deepest: nat) {
    start <= deepest
    && (forall m :: m in s ==> m in spelling && |spelling[m]| <= deepest)
    && (deepest == start || exists m :: m in s && m in spelling && |spelling[m]| == deepest)
  }

  /** Taking the maximum over s1 and then over s2 is taking it over both. */
  lemma DeepestUnion(spelling: map<nat, string>, s1: set<nat>, s2: set<nat>, a: nat, b: nat, c: nat)
    requires Deepest(spelling, s1, a, b) && Deepest(spelling, s2, b, c)
    ensures Deepest(spelling, s1 + s2, a, c)
  {
  }

  /** Sizes of a disjoint union and of its part in e. */
  lemma DisjointCount(s1: set<nat>, s2: set<nat>, e: set<nat>)
    requires s1 * s2 == {}
    ensures |s1 + s2| == |s1| + |s2| && |(s1 + s2) * e| == |s1 * e| + |s2 * e|
  {
    assert (s1 + s2) * e == s1 * e + s2 * e;
    assert (s1 * e) * (s2 * e) == {};
  }

  /** A map whose keys are the numbers below size has size keys. */
  lemma {:induction false} KeysCount(spelling: map<nat, string>, size: nat)
    requires forall n: nat :: n in spelling <==> n < size
    ensures |spelling.Keys| == size
  {
    if size > 0 {
      var rest := spelling - {size - 1};
      KeysCount(rest, size - 1);
      assert spelling.Keys == rest.Keys + {size - 1};
    }
  }

  /** The nodes walked under the edges in `done` and then under the edge
      on c: n, the nodes already seen, and those below n's child on c,
      which are new. */
  lemma DfsStep(children: Children, spelling: map<nat, string>, size: nat, n: nat, done: set<char>, c: char)
    requires WellFormed(children, spelling, size) && n < size && c in children[n] && c !in done
    ensures {n} + Through(spelling, size, n, done + {c}) == {n} + Through(spelling, size, n, done) + Sub(spelling, size, children[n][c])
    ensures ({n} + Through(spelling, size, n, done)) * Sub(spelling, size, children[n][c]) == {}
  {
    var t := children[n][c];
    ThroughAdd(children, spelling, size, n, done, c);
    assert n in children && EdgeAt(children, spelling, size, n, c);
    assert n !in Sub(spelling, size, t);
  }

  /** Moving c from the characters still to visit to those visited keeps
      the two a partition of the keys. */
  lemma Moved(done: set<char>, rest: set<char>, keys: set<char>, c: char)
    requires done + rest == keys && done * rest == {} && c in rest
    ensures (done + {c}) + (rest - {c}) == keys && (done + {c}) * (rest - {c}) == {} && c !in done
  {
    assert c !in done * rest;
    forall x | x in done + {c} && x in rest - {c}
      ensures x in done * rest
    {
    }
  }

  /** Counting and taking the deepest level over two disjoint sets of
      nodes, one after the other, is doing so over their union. */
  lemma Join(spelling: map<nat, string>, endOfWord: set<nat>, s1: set<nat>, s2: set<nat>, a: nat, b: nat, d: nat)
    requires s1 * s2 == {} && Deepest(spelling, s1, a, b) && Deepest(spelling, s2, b, d)
    ensures |s1 + s2| == |s1| + |s2| && |(s1 + s2) * endOfWord| == |s1 * endOfWord| + |s2 * endOfWord|
    ensures Deepest(spelling, s1 + s2, a, d)
  {
    DisjointCount(s1, s2, endOfWord);
    DeepestUnion(spelling, s1, s2, a, b, d);
  }

  /** Nodes with different spellings spell different words, so there are
      as many words as end-of-word nodes. */
  lemma {:induction false} SpeltCount(children: Children, spelling: map<nat, string>, endOfWord: set<nat>)
    requires Reached(children, spelling) && forall e :: e in endOfWord ==> e in spelling
    ensures |Spelt(endOfWord, spelling)| == |endOfWord|
    decreases |endOfWord|
  {
    if endOfWord != {} {
      var e :| e in endOfWord;
      var rest := endOfWord - {e};
      SpeltCount(children, spelling, rest);
      assert Spelt(endOfWord, spelling) == Spelt(rest, spelling) + {spelling[e]};
      forall m | m in rest && m in spelling
        ensures spelling[m] != spelling[e]
      {
        if spelling[m] == spelling[e] {
          SpellingUnique(children, spelling, e, m);
        }
      }
    }
  }

  /** The trie object: the nodes' children, the end-of-word nodes, the
      `isActive` and `isHighlighted` flags as the sets of nodes that have
      them set, and the number of nodes. `spelling` is the ghost string spelt
      by the path from the root to each node. */
  class Trie {
    var children: Children
    var endOfWord: set<nat>
    var active: set<nat>
    var highlighted: set<nat>
    var size: nat
    ghost var spelling: map<nat, string>

    ghost predicate Valid()
      reads this`children, this`endOfWord, this`size, this`spelling
    {
      WellFormed(children, spelling, size) && forall n :: n in endOfWord ==> n < size
    }

    /** The words stored: the spellings of the end-of-word nodes. */
    ghost function Words(): set<string>
      reads this`endOfWord, this`spelling
    {
      Spelt(endOfWord, spelling)
    }

    /** `createRootNode`: a root with no children, not ending a word. */
    constructor ()
      ensures Valid() && Words() == {} && size == 1 && active == {} && highlighted == {}
    {
      children := map[ROOT := map[]];
      endOfWord := {};
      active, highlighted := {}, {};
      size := 1;
      spelling := map[ROOT := []];
      new;
      forall n: nat ensures n in children <==> n < size {
      }
      forall n: nat ensures n in spelling <==> n < size {
      }
    }

    /** `resetNodeStates` from the root: every node reachable from the root
        loses its active and highlighted flags, and every node is. */
    method ResetNodeStates()
      modifies this`active, this`highlighted
      ensures active == {} && highlighted == {}
    {
      active, highlighted := {}, {};
    }

    /** A word is stored exactly when following it from the root ends at an
        end-of-word node. */
    lemma WordsWalk(w: string)
      requires Valid()
      ensures w in Words() <==> Walk(children, ROOT, w).Some? && Walk(children, ROOT, w).value in endOfWord
    {
      if Walk(children, ROOT, w).Some? {
        WalkSpelling(children, spelling, size, ROOT, w);
        assert spelling[ROOT] + w == w;
      }
      if w in Words() {
        var n :| n in endOfWord && n in spelling && spelling[n] == w;
        assert ReachedAt(children, spelling, n);
      }
    }

    /** Every prefix of a stored word has a path from the root. */
    lemma PrefixPath(u: string, v: string)
      requires Valid() && v in Words() && u <= v
      ensures Walk(children, ROOT, u).Some?
    {
      WordsWalk(v);
      assert v == u + v[|u|..];
      WalkAppend(children, ROOT, u, v[|u|..]);
    }

    /** `insertWord`: follow the word from the root, creating each missing
        child, and mark the last node as ending a word. Existing children
        are reused, so exactly the characters past the longest existing
        path get new nodes. */
    method InsertWord(w: string)
      requires Valid()
      modifies this
      ensures Valid() && Words() == old(Words()) + {w}
      ensures Extends(old(children), children)
      ensures size == old(size) + |w| - Depth(old(children), ROOT, w)
      ensures size == old(size) <==> Walk(old(children), ROOT, w).Some?
      ensures active == {} && highlighted == {}
    {
      WalkDepth(children, ROOT, w);
      ResetNodeStates();
      var current := FollowWord(w);
      SpeltMark(endOfWord, old(spelling), spelling, current);
      endOfWord := endOfWord + {current};
      ResetNodeStates();
    }

    /** The loop of `insertWord`: from the root, one `Descend` per
        character of w. It ends at the node spelt w, having created one
        node per character past the longest existing path. */
    method FollowWord(w: string) returns (current: nat)
      requires Valid()
      modifies this`children, this`spelling, this`size, this`active, this`highlighted
      ensures Valid() && current < size && current in spelling && spelling[current] == w
      ensures Extends(old(children), children) && Keeps(old(spelling), spelling)
      ensures size == old(size) + |w| - Depth(old(children), ROOT, w)
    {
      current := ROOT;
      var i := 0;
      while i < |w|
        invariant 0 <= i <= |w| && Valid()
        invariant current < size && current in spelling && spelling[current] == w[..i]
        invariant Extends(old(children), children) && Keeps(old(spelling), spelling)
        invariant Followed(old(children), children, old(size), size, w, i, current)
      {
        var c := w[i];
        ghost var (children0, spelling0, size0, current0) := (children, spelling, size, current);
        current := Descend(current, c);
        FollowedStep(old(children), children0, children, old(size), size0, size, w, i, current0, current);
        ExtendsTrans(old(children), children0, children);
        KeepsTrans(old(spelling), spelling0, spelling);
        PrefixSnoc(w, i);
        i := i + 1;
      }
      assert w[..i] == w;
    }

    /** One pass of the loop of `insertWord`: flag p as active while its
        child on c is looked up and, when it is missing, created; then
        move to that child and highlight it. */
    method Descend(p: nat, c: char) returns (next: nat)
      requires Valid() && p < size
      modifies this`children, this`spelling, this`size, this`active, this`highlighted
      ensures Valid() && next < size && next in spelling && p in old(spelling)
      ensures spelling[next] == old(spelling)[p] + [c]
      ensures Extends(old(children), children) && Keeps(old(spelling), spelling)
      ensures c in old(children)[p] ==> children == old(children) && size == old(size) && next == old(children)[p][c]
      ensures c !in old(children)[p] ==> size == old(size) + 1 && next == old(size) && next in children && children[next] == map[]
      ensures active == old(active) - {p} && highlighted == old(highlighted) + {next}
    {
      active := active + {p};
      if c !in children[p] {
        AddNode(p, c);
      } else {
        ExtendsRefl(children);
        assert EdgeAt(children, spelling, size, p, c);
      }
      active := active - {p};
      next := children[p][c];
      highlighted := highlighted + {next};
    }

    /** The creation of a missing child: node `size` becomes the child of p
        on c, with no children and not ending a word. */
    method AddNode(p: nat, c: char)
      requires Valid() && p < size && c !in children[p]
      modifies this`children, this`spelling, this`size
      ensures Valid() && children == AddChild(old(children), p, c, old(size)) && size == old(size) + 1
      ensures spelling == old(spelling)[old(size) := old(spelling)[p] + [c]]
      ensures Extends(old(children), children) && Keeps(old(spelling), spelling)
    {
      Grow(children, spelling, size, p, c);
      children := AddChild(children, p, c, size);
      spelling := spelling[size := spelling[p] + [c]];
      size := size + 1;
    }

    /** `searchInTrie`: follow the word from the root; a missing child
        means not found, and otherwise the word is found exactly when the
        last node ends a word, so a stored prefix that is not itself a word
        is not found. */
    method SearchInTrie(w: string) returns (found: bool)
      requires Valid()
      modifies this`active, this`highlighted
      ensures found <==> w in Words()
      ensures found <==> Walk(children, ROOT, w).Some? && Walk(children, ROOT, w).value in endOfWord
      ensures active == {} && highlighted == {}
    {
      WordsWalk(w);
      ResetNodeStates();
      var current := ROOT;
      var i := 0;
      while i < |w|
        invariant 0 <= i <= |w| && Walk(children, ROOT, w[..i]) == Some(current)
      {
        var c := w[i];
        active := active + {current};
        WalkAppend(children, ROOT, w[..i], [c]);
        PrefixSnoc(w, i);
        if !(current in children && c in children[current]) {
          WalkAppend(children, ROOT, w[..i + 1], w[i + 1..]);
          assert w[..i + 1] + w[i + 1..] == w;
          ResetNodeStates();
          return false;
        }
        active := active - {current};
        current := children[current][c];
        highlighted := highlighted + {current};
        i := i + 1;
      }
      assert w[..i] == w;
      found := current in endOfWord;
      ResetNodeStates();
    }

    /** `calculateStats`: a depth-first walk from the root counting the
        nodes, the end-of-word nodes and the deepest level. Every node is
        counted once, the word count is the number of distinct words
        stored, and the depth is the length of the longest spelling. */
    method CalculateStats() returns (totalNodes: nat, maxDepth: nat, wordCount: nat)
      requires Valid()
      ensures totalNodes == size
      ensures wordCount == |endOfWord| == |Words()|
      ensures forall n :: n in spelling ==> |spelling[n]| <= maxDepth
      ensures exists n :: n in spelling && |spelling[n]| == maxDepth
    {
      totalNodes, maxDepth, wordCount := Dfs(children, spelling, size, endOfWord, ROOT, 0, 1, 0, 0);
      assert Sub(spelling, size, ROOT) == spelling.Keys;
      KeysCount(spelling, size);
      assert Sub(spelling, size, ROOT) * endOfWord == endOfWord;
      SpeltCount(children, spelling, endOfWord);
    }
  }

  /** The `dfs` of `calculateStats` at node n, at level `depth`, given the
      counters so far: each child adds one node before its own walk. */
  method Dfs(children: Children, ghost spelling: map<nat, string>, size: nat, endOfWord: set<nat>,
             n: nat, depth: nat, totalNodes: nat, maxDepth: nat, wordCount: nat) returns (total: nat, deepest: nat, words: nat)
    requires WellFormed(children, spelling, size) && n < size && n in spelling && depth == |spelling[n]|
    ensures total == totalNodes + |Sub(spelling, size, n)| - 1
    ensures words == wordCount + |Sub(spelling, size, n) * endOfWord|
    ensures Deepest(spelling, Sub(spelling, size, n), maxDepth, deepest)
    decreases size - n
  {
    deepest := if maxDepth < depth then depth else maxDepth;
    words := if n in endOfWord then wordCount + 1 else wordCount;
    total := totalNodes;
    assert Deepest(spelling, {n}, maxDepth, deepest);
    var rest := children[n].Keys;
    ghost var done: set<char> := {};
    ghost var seen: set<nat> := {n};
    ThroughNone(spelling, size, n);
    assert {n} * endOfWord == if n in endOfWord then {n} else {};
    while rest != {}
      invariant done + rest == children[n].Keys && done * rest == {}
      invariant seen == {n} + Through(spelling, size, n, done)
      invariant total + 1 == totalNodes + |seen|
      invariant words == wordCount + |seen * endOfWord|
      invariant Deepest(spelling, seen, maxDepth, deepest)
      decreases rest
    {
      var c :| c in rest;
      var child := children[n][c];
      assert EdgeAt(children, spelling, size, n, c);
      ghost var deepest0 := deepest;
      total := total + 1;
      total, deepest, words := Dfs(children, spelling, size, endOfWord, child, depth + 1, total, deepest, words);
      DfsStep(children, spelling, size, n, done, c);
      Join(spelling, endOfWord, seen, Sub(spelling, size, child), maxDepth, deepest0, deepest);
      Moved(done, rest, children[n].Keys, c);
      rest := rest - {c};
      done := done + {c};
      seen := seen + Sub(spelling, size, child);
    }
    SubSplit(children, spelling, size, n);
  }

  /** The distinct words of a list. */
  function WordSet(words: seq<string>): set<string> {
    set w | w in words
  }

  lemma WordSetSnoc(words: seq<string>, w: string)
    ensures WordSet(words + [w]) == WordSet(words) + {w}
  {
  }

  /** `buildTrie`: a fresh root, then `insertWord` for each word in turn.
      The words stored are exactly the words given, and the statistics
      count each distinct word once. */
  method BuildTrie(words: seq<string>) returns (trie: Trie, totalWords: nat, totalNodes: nat, maxDepth: nat)
    ensures fresh(trie) && trie.Valid() && trie.Words() == WordSet(words)
    ensures totalWords == |WordSet(words)| && totalNodes == trie.size
    ensures trie.active == {} && trie.highlighted == {}
  {
    trie := new Trie();
    var i := 0;
    while i < |words|
      invariant 0 <= i <= |words| && fresh(trie) && trie.Valid()
      invariant trie.Words() == WordSet(words[..i])
      invariant trie.active == {} && trie.highlighted == {}
    {
      trie.InsertWord(words[i]);
      assert words[..i + 1] == words[..i] + [words[i]];
      WordSetSnoc(words[..i], words[i]);
      i := i + 1;
    }
    assert words[..i] == words;
    trie.ResetNodeStates();
    totalNodes, maxDepth, totalWords := trie.CalculateStats();
  }
}
