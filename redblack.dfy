/** The red-black tree visualizer: a search tree of coloured nodes that
    `insert` keeps balanced by recolouring and rotating, a `search` that
    walks one root-to-leaf path, and `checkViolations`, which reports the
    red-black rules the current tree breaks. Every operation records steps
    holding a snapshot of the whole tree.

    The nodes of the original point to their parents. Here the position of
    the node being worked on is a zipper: the subtree below it (`focus`)
    and the ancestors above it (`path`, the parent first), each ancestor
    with its colour, its value and the child the walk did not enter. Moving
    to the parent or grandparent is taking frames off the path, and the
    whole tree is the focus plugged back into its path. */
module RedBlack {
  import opened Common

  datatype Color = Red | Black

  datatype Tree = Leaf | Node(color: Color, left: Tree, value: int, right: Tree)

  function InOrder(t: Tree): seq<int> {
    match t
    case Leaf => []
    case Node(_, l, x, r) => InOrder(l) + [x] + InOrder(r)
  }

  function Elements(t: Tree): set<int> {
    set x | x in InOrder(t)
  }

  lemma SameElements(t: Tree, u: Tree)
    requires InOrder(t) == InOrder(u)
    ensures Elements(t) == Elements(u)
  {
  }

  /** A search tree: the in-order listing is strictly increasing. */
  predicate Bst(t: Tree) {
    Increasing(InOrder(t))
  }

  predicate IsRed(t: Tree) {
    t.Node? && t.color == Red
  }

  /** No red node has a red child. */
  predicate NoRedRed(t: Tree) {
    match t
    case Leaf => true
    case Node(c, l, _, r) =>
      (c == Red ==> !IsRed(l) && !IsRed(r)) && NoRedRed(l) && NoRedRed(r)
  }

  function Bonus(c: Color): nat {
    if c == Black then 1 else 0
  }

  /** Black nodes on the leftmost path, an empty subtree counting as one. */
  function BH(t: Tree): nat {
    match t
    case Leaf => 1
    case Node(c, l, _, _) => BH(l) + Bonus(c)
  }

  /** Every path down to an empty subtree meets as many black nodes. */
  predicate BlackBalanced(t: Tree) {
    match t
    case Leaf => true
    case Node(_, l, _, r) => BlackBalanced(l) && BlackBalanced(r) && BH(l) == BH(r)
  }

  /** The red-black rules below the root; the root itself may be red. */
  predicate Sound(t: Tree) {
    NoRedRed(t) && BlackBalanced(t)
  }

  /** All three rules the visualizer checks: a black (or absent) root, no
      red node with a red child, and equal black heights. */
  predicate IsRedBlack(t: Tree) {
    !IsRed(t) && Sound(t)
  }

  function Blacken(t: Tree): Tree {
    if t.Node? then Node(Black, t.left, t.value, t.right) else t
  }

  lemma BlackenRedBlack(t: Tree)
    requires Sound(t)
    ensures IsRedBlack(Blacken(t)) && InOrder(Blacken(t)) == InOrder(t)
    ensures t.Node? && t.color == Red ==> BH(Blacken(t)) == BH(t) + 1
  {
  }

  // ---------------------------------------------------------------------
  // checkViolations

  datatype Violation =
    | RootNotBlack
    | RedLeftChild(parent: int, child: int)
    | RedRightChild(parent: int, child: int)
    | BlackHeightInconsistent

  /** `checkRedViolation`: each red node with a red child, parent first,
      then the left subtree, then the right. */
  function RedViolations(t: Tree): seq<Violation> {
    match t
    case Leaf => []
    case Node(c, l, x, r) =>
      (if c == Red && IsRed(l) then [RedLeftChild(x, l.value)] else [])
      + (if c == Red && IsRed(r) then [RedRightChild(x, r.value)] else [])
      + RedViolations(l) + RedViolations(r)
  }

  /** `getBlackHeight`: the larger of the two children's counts. */
  function GetBlackHeight(t: Tree): int {
    match t
    case Leaf => 1
    case Node(c, l, _, r) => Max(GetBlackHeight(l), GetBlackHeight(r)) + Bonus(c)
  }

  /** `checkBlackHeight`: every path meets `expected` black nodes. */
  function CheckBlackHeight(t: Tree, expected: int): bool {
    match t
    case Leaf => expected == 1
    case Node(c, l, _, r) =>
      CheckBlackHeight(l, expected - Bonus(c)) && CheckBlackHeight(r, expected - Bonus(c))
  }

  /** `checkViolations`: nothing for the empty tree, otherwise a red root,
      then the red-red pairs, then an inconsistent black height. */
  function CheckViolations(t: Tree): seq<Violation> {
    if t.Leaf? then []
    else
      (if t.color != Black then [RootNotBlack] else [])
      + RedViolations(t)
      + (if !CheckBlackHeight(t, GetBlackHeight(t)) then [BlackHeightInconsistent] else [])
  }

  lemma {:induction false} RedViolationsExact(t: Tree)
    ensures RedViolations(t) == [] <==> NoRedRed(t)
  {
    match t
    case Leaf =>
    case Node(_, l, _, r) =>
      RedViolationsExact(l);
      RedViolationsExact(r);
  }

  lemma {:induction false} CheckBlackHeightExact(t: Tree, expected: int)
    ensures CheckBlackHeight(t, expected) <==> BlackBalanced(t) && expected == BH(t)
  {
    match t
    case Leaf =>
    case Node(c, l, _, r) =>
      CheckBlackHeightExact(l, expected - Bonus(c));
      CheckBlackHeightExact(r, expected - Bonus(c));
  }

  lemma {:induction false} GetBlackHeightBalanced(t: Tree)
    requires BlackBalanced(t)
    ensures GetBlackHeight(t) == BH(t)
  {
    match t
    case Leaf =>
    case Node(_, l, _, r) =>
      GetBlackHeightBalanced(l);
      GetBlackHeightBalanced(r);
  }

  /** The report is empty exactly when the tree is a red-black tree. */
  lemma CheckViolationsExact(t: Tree)
    ensures CheckViolations(t) == [] <==> IsRedBlack(t)
  {
    RedViolationsExact(t);
    CheckBlackHeightExact(t, GetBlackHeight(t));
    if BlackBalanced(t) {
      GetBlackHeightBalanced(t);
    }
  }

  // ---------------------------------------------------------------------
  // Rotations

  /** `rotateLeft`: the right child takes the node's place and the node
      becomes its left child, adopting the child's left subtree. Colours
      stay with their values. */
  function RotateLeft(t: Tree): (res: Tree)
    requires t.Node? && t.right.Node?
    ensures InOrder(res) == InOrder(t)
    ensures res.Node? && res.left.Node?
  {
    Node(t.right.color, Node(t.color, t.left, t.value, t.right.left), t.right.value, t.right.right)
  }

  /** `rotateRight`: the mirror image of `rotateLeft`. */
  function RotateRight(t: Tree): (res: Tree)
    requires t.Node? && t.left.Node?
    ensures InOrder(res) == InOrder(t)
    ensures res.Node? && res.right.Node?
  {
    Node(t.left.color, t.left.left, t.left.value, Node(t.color, t.left.right, t.value, t.right))
  }

  /** Each rotation undoes the other. */
  lemma RotationsInverse(t: Tree)
    ensures t.Node? && t.right.Node? ==> RotateRight(RotateLeft(t)) == t
    ensures t.Node? && t.left.Node? ==> RotateLeft(RotateRight(t)) == t
  {
  }

  // ---------------------------------------------------------------------
  // The zipper: a node together with its ancestors

  datatype Side = Left | Right

  /** An ancestor: the walk entered its `side` child; `sibling` is the other. */
  datatype Frame = Frame(side: Side, color: Color, value: int, sibling: Tree)

  function Attach(f: Frame, t: Tree): Tree {
    if f.side == Left then Node(f.color, t, f.value, f.sibling)
    else Node(f.color, f.sibling, f.value, t)
  }

  /** The whole tree: the focus put back under its ancestors. */
  function Plug(t: Tree, path: seq<Frame>): Tree
    decreases |path|
  {
    if path == [] then t else Plug(Attach(path[0], t), path[1..])
  }

  /** What an ancestor lists before the child the walk entered. */
  function LeftOf(f: Frame): seq<int> {
    if f.side == Right then InOrder(f.sibling) + [f.value] else []
  }

  /** What an ancestor lists after the child the walk entered. */
  function RightOf(f: Frame): seq<int> {
    if f.side == Left then [f.value] + InOrder(f.sibling) else []
  }

  /** The values the in-order listing shows before the focus. */
  function Before(path: seq<Frame>): seq<int>
    decreases |path|
  {
    if path == [] then [] else Before(path[1..]) + LeftOf(path[0])
  }

  /** The values the in-order listing shows after the focus. */
  function After(path: seq<Frame>): seq<int>
    decreases |path|
  {
    if path == [] then [] else RightOf(path[0]) + After(path[1..])
  }

  lemma RegroupAfter(b: seq<int>, m: seq<int>, h: seq<int>, a: seq<int>)
    ensures b + (m + h) + a == b + m + (h + a)
  {
  }

  lemma RegroupBefore(b: seq<int>, h: seq<int>, m: seq<int>, a: seq<int>)
    ensures b + (h + m) + a == (b + h) + m + a
  {
  }

  lemma AttachLeftListing(t: Tree, f: Frame, b: seq<int>, a: seq<int>)
    requires f.side == Left
    ensures b + InOrder(t) + (RightOf(f) + a) == b + InOrder(Attach(f, t)) + a
  {
    var m, h := InOrder(t), RightOf(f);
    assert InOrder(Attach(f, t)) == m + h;
    RegroupAfter(b, m, h, a);
  }

  lemma AttachRightListing(t: Tree, f: Frame, b: seq<int>, a: seq<int>)
    requires f.side == Right
    ensures b + LeftOf(f) + InOrder(t) + a == b + InOrder(Attach(f, t)) + a
  {
    var m, h := InOrder(t), LeftOf(f);
    assert InOrder(Attach(f, t)) == h + m;
    RegroupBefore(b, h, m, a);
  }

  /** Attaching the focus to its parent moves the parent's part of the
      listing from the path into the focus. */
  lemma AttachListing(t: Tree, path: seq<Frame>)
    requires path != []
    ensures Before(path) + InOrder(t) + After(path)
      == Before(path[1..]) + InOrder(Attach(path[0], t)) + After(path[1..])
  {
    var f := path[0];
    if f.side == Left {
      assert LeftOf(f) == [];
      assert Before(path) == Before(path[1..]);
      AttachLeftListing(t, f, Before(path[1..]), After(path[1..]));
    } else {
      assert RightOf(f) == [];
      assert After(path) == After(path[1..]);
      AttachRightListing(t, f, Before(path[1..]), After(path[1..]));
    }
  }

  lemma {:induction false} PlugInOrder(t: Tree, path: seq<Frame>)
    ensures InOrder(Plug(t, path)) == Before(path) + InOrder(t) + After(path)
    decreases |path|
  {
    if path != [] {
      PlugInOrder(Attach(path[0], t), path[1..]);
      AttachListing(t, path);
    }
  }

  /** Replacing the focus by a subtree with the same listing keeps the
      listing of the whole tree. */
  lemma PlugSame(t: Tree, u: Tree, path: seq<Frame>)
    requires InOrder(t) == InOrder(u)
    ensures InOrder(Plug(t, path)) == InOrder(Plug(u, path))
  {
    PlugInOrder(t, path);
    PlugInOrder(u, path);
  }

  /** The ancestors keep the red-black rules around a focus of black height
      h: each sibling is sound with the black height of the subtree next to
      it, no red ancestor has a red sibling below it or a red parent. */
  ghost predicate PathOk(path: seq<Frame>, h: nat)
    decreases |path|
  {
    path == [] ||
    (Sound(path[0].sibling) && BH(path[0].sibling) == h
     && (path[0].color == Red ==> !IsRed(path[0].sibling))
     && (|path| > 1 && path[1].color == Red ==> path[0].color == Black)
     && PathOk(path[1..], h + Bonus(path[0].color)))
  }

  /** The root, the last ancestor, is black. */
  ghost predicate RootBlack(path: seq<Frame>) {
    |path| > 0 ==> path[|path| - 1].color == Black
  }

  /** A whole red-black tree seen from `focus`. */
  ghost predicate Intact(focus: Tree, path: seq<Frame>) {
    Sound(focus) && PathOk(path, BH(focus)) && RootBlack(path)
    && (path == [] ==> !IsRed(focus))
    && (|path| > 0 && path[0].color == Red ==> !IsRed(focus))
  }

  /** The state `insertFixup` keeps: the node is red with black children and
      the only rule that may be broken is a red parent above it. */
  ghost predicate Fixing(focus: Tree, path: seq<Frame>) {
    IsRed(focus) && !IsRed(focus.left) && !IsRed(focus.right) && Sound(focus)
    && PathOk(path, BH(focus)) && RootBlack(path)
  }

  lemma {:induction false} PlugSound(t: Tree, path: seq<Frame>)
    requires Sound(t) && PathOk(path, BH(t))
    requires |path| > 0 && path[0].color == Red ==> !IsRed(t)
    ensures Sound(Plug(t, path))
    decreases |path|
  {
    if path != [] {
      var u := Attach(path[0], t);
      assert BH(u) == BH(t) + Bonus(path[0].color);
      PlugSound(u, path[1..]);
    }
  }

  /** When the parent is black (or there is none) the fixup is over: with
      the root coloured black the tree is a red-black tree. */
  lemma FixingDone(focus: Tree, path: seq<Frame>)
    requires Fixing(focus, path)
    requires path == [] || path[0].color == Black
    ensures IsRedBlack(Blacken(Plug(focus, path)))
    ensures InOrder(Blacken(Plug(focus, path))) == InOrder(Plug(focus, path))
  {
    PlugSound(focus, path);
    BlackenRedBlack(Plug(focus, path));
  }

  // ---------------------------------------------------------------------
  // The three cases of insertFixup

  /** Case 1, a red uncle: parent and uncle turn black, the grandparent red,
      and the grandparent is the next node to fix. */
  function Recolor(focus: Tree, path: seq<Frame>): Tree
    requires |path| >= 2
  {
    var p := path[0];
    var g := path[1];
    Attach(Frame(g.side, Red, g.value, Blacken(g.sibling)),
           Attach(Frame(p.side, Black, p.value, p.sibling), focus))
  }

  lemma RecolorFixes(focus: Tree, path: seq<Frame>)
    requires Fixing(focus, path) && |path| >= 2
    requires path[0].color == Red && IsRed(path[1].sibling)
    ensures Fixing(Recolor(focus, path), path[2..])
    ensures InOrder(Plug(Recolor(focus, path), path[2..])) == InOrder(Plug(focus, path))
  {
    var p, g := path[0], path[1];
    assert path[1..][1..] == path[2..];
    assert PathOk(path[1..], BH(focus));
    BlackenRedBlack(g.sibling);
    var a := Attach(Frame(p.side, Black, p.value, p.sibling), focus);
    assert Sound(a) && BH(a) == BH(focus) + 1;
    PlugSame(Recolor(focus, path), Attach(g, Attach(p, focus)), path[2..]);
  }

  /** Case 2 on the left: the node is the right child of a left child. After
      a left rotation at the parent, the old parent is the node to fix and it
      is the left child of a left child. */
  lemma InnerLeft(focus: Tree, path: seq<Frame>)
    requires Fixing(focus, path) && |path| >= 2
    requires path[0].color == Red && path[0].side == Right && path[1].side == Left
    ensures var t := RotateLeft(Attach(path[0], focus));
      var q := [Frame(Left, t.color, t.value, t.right)] + path[1..];
      Fixing(t.left, q) && q[0].color == Red && q[1] == path[1]
      && InOrder(Plug(t.left, q)) == InOrder(Plug(focus, path))
  {
    var t := RotateLeft(Attach(path[0], focus));
    var q := [Frame(Left, t.color, t.value, t.right)] + path[1..];
    assert q[1..] == path[1..];
    assert Plug(t.left, q) == Plug(t, path[1..]);
    PlugSame(t, Attach(path[0], focus), path[1..]);
  }

  /** Case 2 on the right, the mirror image of `InnerLeft`. */
  lemma InnerRight(focus: Tree, path: seq<Frame>)
    requires Fixing(focus, path) && |path| >= 2
    requires path[0].color == Red && path[0].side == Left && path[1].side == Right
    ensures var t := RotateRight(Attach(path[0], focus));
      var q := [Frame(Right, t.color, t.value, t.left)] + path[1..];
      Fixing(t.right, q) && q[0].color == Red && q[1] == path[1]
      && InOrder(Plug(t.right, q)) == InOrder(Plug(focus, path))
  {
    var t := RotateRight(Attach(path[0], focus));
    var q := [Frame(Right, t.color, t.value, t.left)] + path[1..];
    assert q[1..] == path[1..];
    assert Plug(t.right, q) == Plug(t, path[1..]);
    PlugSame(t, Attach(path[0], focus), path[1..]);
  }

  /** Case 3 on the left: the node is the left child of a left child and the
      uncle is black. The parent turns black, the grandparent red, and a
      right rotation at the grandparent lifts the parent into its place;
      the parent is black, so the fixup ends. */
  lemma OuterLeft(focus: Tree, path: seq<Frame>)
    requires Fixing(focus, path) && |path| >= 2
    requires path[0].color == Red && path[0].side == Left && path[1].side == Left
    requires !IsRed(path[1].sibling)
    ensures var q := [path[0].(color := Black), path[1].(color := Red)] + path[2..];
      var t := RotateRight(Attach(q[1], Attach(q[0], focus)));
      var r := [Frame(Left, t.color, t.value, t.right)] + q[2..];
      t.left == focus && Fixing(focus, r) && r[0].color == Black
      && InOrder(Plug(focus, r)) == InOrder(Plug(focus, path))
  {
    var q := [path[0].(color := Black), path[1].(color := Red)] + path[2..];
    var t := RotateRight(Attach(q[1], Attach(q[0], focus)));
    var r := [Frame(Left, t.color, t.value, t.right)] + q[2..];
    assert path[1..][1..] == path[2..] && q[2..] == path[2..] && r[1..] == path[2..];
    assert PathOk(path[1..], BH(focus));
    assert Plug(focus, r) == Plug(t, path[2..]);
    assert Plug(focus, path) == Plug(Attach(path[1], Attach(path[0], focus)), path[2..]);
    PlugSame(t, Attach(path[1], Attach(path[0], focus)), path[2..]);
  }

  /** Case 3 on the right, the mirror image of `OuterLeft`. */
  lemma OuterRight(focus: Tree, path: seq<Frame>)
    requires Fixing(focus, path) && |path| >= 2
    requires path[0].color == Red && path[0].side == Right && path[1].side == Right
    requires !IsRed(path[1].sibling)
    ensures var q := [path[0].(color := Black), path[1].(color := Red)] + path[2..];
      var t := RotateLeft(Attach(q[1], Attach(q[0], focus)));
      var r := [Frame(Right, t.color, t.value, t.left)] + q[2..];
      t.right == focus && Fixing(focus, r) && r[0].color == Black
      && InOrder(Plug(focus, r)) == InOrder(Plug(focus, path))
  {
    var q := [path[0].(color := Black), path[1].(color := Red)] + path[2..];
    var t := RotateLeft(Attach(q[1], Attach(q[0], focus)));
    var r := [Frame(Right, t.color, t.value, t.left)] + q[2..];
    assert path[1..][1..] == path[2..] && q[2..] == path[2..] && r[1..] == path[2..];
    assert PathOk(path[1..], BH(focus));
    assert Plug(focus, r) == Plug(t, path[2..]);
    assert Plug(focus, path) == Plug(Attach(path[1], Attach(path[0], focus)), path[2..]);
    PlugSame(t, Attach(path[1], Attach(path[0], focus)), path[2..]);
  }

  // ---------------------------------------------------------------------
  // Descending to the insertion point

  lemma IncreasingParts(a: seq<int>, b: seq<int>)
    requires Increasing(a + b)
    ensures Increasing(a) && Increasing(b)
  {
    assert forall i :: 0 <= i < |a| ==> a[i] == (a + b)[i];
    assert forall i :: 0 <= i < |b| ==> b[i] == (a + b)[|a| + i];
  }

  lemma IncreasingSplit(a: seq<int>, x: int, b: seq<int>)
    requires Increasing(a + [x] + b)
    ensures forall y :: y in a ==> y < x
    ensures forall y :: y in b ==> x < y
  {
    var s := a + [x] + b;
    assert s[|a|] == x;
    forall y | y in a
      ensures y < x
    {
      var k :| 0 <= k < |a| && a[k] == y;
      assert s[k] == y;
    }
    forall y | y in b
      ensures x < y
    {
      var k :| 0 <= k < |b| && b[k] == y;
      assert s[|a| + 1 + k] == y;
    }
  }

  /** A value larger than everything on its left and smaller than
      everything on its right fits between them. */
  lemma IncreasingPlace(a: seq<int>, v: int, b: seq<int>)
    requires Increasing(a + b)
    requires forall y :: y in a ==> y < v
    requires forall y :: y in b ==> v < y
    ensures Increasing(a + [v] + b)
  {
    IncreasingParts(a, b);
    assert forall k :: 0 <= k < |a| ==> a[k] in a;
    assert forall k :: 0 <= k < |b| ==> b[k] in b;
    IncreasingJoin(a, v, b);
  }

  /** The subtrees of a search tree are search trees on either side of
      its value. */
  lemma BstChildren(t: Tree)
    requires t.Node? && Bst(t)
    ensures Bst(t.left) && Bst(t.right)
    ensures forall y :: y in Elements(t.left) ==> y < t.value
    ensures forall y :: y in Elements(t.right) ==> t.value < y
  {
    IncreasingParts(InOrder(t.left) + [t.value], InOrder(t.right));
    IncreasingParts(InOrder(t.left), [t.value]);
    IncreasingSplit(InOrder(t.left), t.value, InOrder(t.right));
  }

  /** A node's values are its left subtree's, its own and its right
      subtree's. */
  lemma ElementsOfNode(t: Tree)
    requires t.Node?
    ensures Elements(t) == Elements(t.left) + {t.value} + Elements(t.right)
  {
    assert InOrder(t) == InOrder(t.left) + [t.value] + InOrder(t.right);
  }

  /** One step of `search` in a search tree: v is in the tree exactly when
      it is in the subtree on its side. */
  lemma SearchDescend(t: Tree, v: int)
    requires Bst(t) && t.Node? && v != t.value
    ensures var c := if v < t.value then t.left else t.right;
      Bst(c) && (v in Elements(t) <==> v in Elements(c))
  {
    BstChildren(t);
    ElementsOfNode(t);
  }

  /** The number of nodes `search` passes on its way to v: those it
      leaves for a subtree, stopping at the node holding v or at the
      empty subtree. */
  ghost function Passed(t: Tree, v: int): nat {
    match t
    case Leaf => 0
    case Node(_, l, x, r) => if v == x then 0 else 1 + Passed(if v < x then l else r, v)
  }

  /** The walk is on v's way: everything listed before the focus is
      smaller than v and everything after it larger. */
  ghost predicate Around(path: seq<Frame>, v: int) {
    (forall y :: y in Before(path) ==> y < v) && (forall y :: y in After(path) ==> v < y)
  }

  /** One step down keeps every rule in place. */
  lemma DescendIntact(focus: Tree, path: seq<Frame>)
    requires focus.Node? && Intact(focus, path)
    ensures Intact(focus.left, [Frame(Left, focus.color, focus.value, focus.right)] + path)
    ensures Intact(focus.right, [Frame(Right, focus.color, focus.value, focus.left)] + path)
  {
    assert ([Frame(Left, focus.color, focus.value, focus.right)] + path)[1..] == path;
    assert ([Frame(Right, focus.color, focus.value, focus.left)] + path)[1..] == path;
  }

  /** What one step down to the left does to the listings on either side. */
  lemma DescendListingLeft(focus: Tree, path: seq<Frame>)
    requires focus.Node?
    ensures var down := [Frame(Left, focus.color, focus.value, focus.right)] + path;
      Before(down) == Before(path) && After(down) == [focus.value] + InOrder(focus.right) + After(path)
      && Plug(focus.left, down) == Plug(focus, path)
      && Before(down) + InOrder(focus.left) + After(down) == Before(path) + InOrder(focus) + After(path)
  {
    var down := [Frame(Left, focus.color, focus.value, focus.right)] + path;
    assert down[1..] == path && Attach(down[0], focus.left) == focus;
    assert LeftOf(down[0]) == [];
    AttachListing(focus.left, down);
  }

  /** What one step down to the right does to the listings on either side. */
  lemma DescendListingRight(focus: Tree, path: seq<Frame>)
    requires focus.Node?
    ensures var down := [Frame(Right, focus.color, focus.value, focus.left)] + path;
      Before(down) == Before(path) + (InOrder(focus.left) + [focus.value]) && After(down) == After(path)
      && Plug(focus.right, down) == Plug(focus, path)
      && Before(down) + InOrder(focus.right) + After(down) == Before(path) + InOrder(focus) + After(path)
  {
    var down := [Frame(Right, focus.color, focus.value, focus.left)] + path;
    assert down[1..] == path && Attach(down[0], focus.right) == focus;
    assert RightOf(down[0]) == [];
    AttachListing(focus.right, down);
  }

  /** The ordering fact behind one step down: within an increasing listing
      `b + (l + [x] + r) + a`, a value above `b` and below `a` is below
      everything from x on when it is below x, and above everything up to x
      when it is above x. */
  lemma SplitAround(b: seq<int>, l: seq<int>, x: int, r: seq<int>, a: seq<int>, v: int)
    requires Increasing(b + (l + [x] + r) + a)
    requires forall y :: y in b ==> y < v
    requires forall y :: y in a ==> v < y
    ensures v < x ==> forall y :: y in [x] + r + a ==> v < y
    ensures x < v ==> forall y :: y in b + (l + [x]) ==> y < v
  {
    assert b + (l + [x] + r) + a == (b + l) + [x] + (r + a);
    IncreasingSplit(b + l, x, r + a);
    assert forall y :: y in [x] + r + a ==> y == x || y in r + a;
    assert forall y :: y in b + (l + [x]) ==> y == x || y in b + l;
  }

  lemma DescendLeft(focus: Tree, path: seq<Frame>, v: int)
    requires focus.Node? && v < focus.value && Around(path, v)
    requires Increasing(Before(path) + InOrder(focus) + After(path))
    ensures Around([Frame(Left, focus.color, focus.value, focus.right)] + path, v)
  {
    DescendListingLeft(focus, path);
    assert InOrder(focus) == InOrder(focus.left) + [focus.value] + InOrder(focus.right);
    SplitAround(Before(path), InOrder(focus.left), focus.value, InOrder(focus.right), After(path), v);
  }

  lemma DescendRight(focus: Tree, path: seq<Frame>, v: int)
    requires focus.Node? && focus.value < v && Around(path, v)
    requires Increasing(Before(path) + InOrder(focus) + After(path))
    ensures Around([Frame(Right, focus.color, focus.value, focus.left)] + path, v)
  {
    DescendListingRight(focus, path);
    assert InOrder(focus) == InOrder(focus.left) + [focus.value] + InOrder(focus.right);
    SplitAround(Before(path), InOrder(focus.left), focus.value, InOrder(focus.right), After(path), v);
  }

  /** The insertion walk in `r` stands at `focus` below `path`, on v's way. */
  ghost predicate Walking(r: Tree, focus: Tree, path: seq<Frame>, v: int) {
    Plug(focus, path) == r && Intact(focus, path) && Around(path, v)
    && InOrder(r) == Before(path) + InOrder(focus) + After(path)
  }

  /** One step of the walk towards v. */
  lemma WalkDown(r: Tree, focus: Tree, path: seq<Frame>, v: int)
    requires Bst(r) && Walking(r, focus, path, v) && focus.Node?
    ensures v < focus.value ==>
      Walking(r, focus.left, [Frame(Left, focus.color, focus.value, focus.right)] + path, v)
    ensures focus.value < v ==>
      Walking(r, focus.right, [Frame(Right, focus.color, focus.value, focus.left)] + path, v)
  {
    DescendIntact(focus, path);
    if v < focus.value {
      DescendListingLeft(focus, path);
      DescendLeft(focus, path, v);
    } else if focus.value < v {
      DescendListingRight(focus, path);
      DescendRight(focus, path, v);
    }
  }

  /** The walk stops: at v, which is then in the tree, or below a leaf
      position, where v is not. */
  lemma WalkEnd(r: Tree, focus: Tree, path: seq<Frame>, v: int)
    requires Walking(r, focus, path, v)
    ensures focus.Node? && focus.value == v ==> v in Elements(r)
    ensures focus == Leaf ==> v !in Elements(r) && InOrder(r) == Before(path) + After(path)
  {
    var b, a := Before(path), After(path);
    if focus == Leaf {
      assert b + InOrder(focus) == b;
      assert v !in b && v !in a;
      assert v !in InOrder(r);
    } else if focus.value == v {
      assert InOrder(focus) == InOrder(focus.left) + [v] + InOrder(focus.right);
      assert v in InOrder(focus);
      assert v in b + InOrder(focus);
      assert v in InOrder(r);
    }
  }

  /** The new red node hung where the walk fell off the tree: the tree
      stays a search tree, gains v, and only the red parent rule may break. */
  lemma Hung(path: seq<Frame>, v: int)
    requires Intact(Leaf, path) && Around(path, v)
    requires Increasing(Before(path) + After(path))
    ensures Fixing(Node(Red, Leaf, v, Leaf), path)
    ensures Bst(Plug(Node(Red, Leaf, v, Leaf), path))
    ensures Elements(Plug(Node(Red, Leaf, v, Leaf), path)) == Elements(Plug(Leaf, path)) + {v}
  {
    PlugInOrder(Node(Red, Leaf, v, Leaf), path);
    PlugInOrder(Leaf, path);
    assert InOrder(Node(Red, Leaf, v, Leaf)) == [v];
    IncreasingPlace(Before(path), v, After(path));
  }

  /** The tree of one black node is a red-black search tree holding v. */
  lemma SingleNode(v: int)
    ensures IsRedBlack(Node(Black, Leaf, v, Leaf)) && Bst(Node(Black, Leaf, v, Leaf))
    ensures Elements(Node(Black, Leaf, v, Leaf)) == {v}
    ensures CheckViolations(Node(Black, Leaf, v, Leaf)) == []
  {
    assert InOrder(Node(Black, Leaf, v, Leaf)) == [v];
    CheckViolationsExact(Node(Black, Leaf, v, Leaf));
  }

  // ---------------------------------------------------------------------
  // The tree object and its recorded steps

  datatype Operation = Inserting | Searching | Rotating | Recoloring

  /** One recorded step: the operation, a snapshot of the whole tree, the
      value the step concerns, whether a search found it, and the
      violations of the snapshot. */
  datatype Step = Step(operation: Operation, root: Tree, targetValue: Option<int>,
                       found: Option<bool>, violations: seq<Violation>)

  function Snapshot(op: Operation, t: Tree, target: Option<int>, found: Option<bool>): Step {
    Step(op, t, target, found, CheckViolations(t))
  }

  /** `after` is `before` with steps appended. */
  ghost predicate Extends(before: seq<Step>, after: seq<Step>) {
    |before| <= |after| && forall i :: 0 <= i < |before| ==> after[i] == before[i]
  }

  /** The last recorded step is the final recolouring of `insertFixup`,
      showing `t` with no violations. */
  ghost predicate EndsClean(steps: seq<Step>, t: Tree) {
    |steps| > 0 && steps[|steps| - 1] == Step(Recoloring, t, None, None, [])
  }

  /** What `insert` records: steps are only appended, the first new one is
      an insert step for v, and the last one shows the final tree `t`
      without violations. */
  ghost predicate InsertRecorded(before: seq<Step>, after: seq<Step>, v: int, t: Tree) {
    Extends(before, after) && |after| > |before|
    && after[|before|].operation == Inserting && after[|before|].targetValue == Some(v)
    && after[|after| - 1].root == t && after[|after| - 1].violations == []
  }

  /** A single insert step showing a red-black tree is such a record. */
  lemma RecordedAlone(before: seq<Step>, v: int, t: Tree)
    requires CheckViolations(t) == []
    ensures InsertRecorded(before, before + [Snapshot(Inserting, t, Some(v), None)], v, t)
  {
  }

  /** So is an insert step followed by the fixup's steps. */
  lemma RecordedFixed(before: seq<Step>, after: seq<Step>, v: int, t: Tree)
    requires Extends(before, after) && |after| > |before| + 1
    requires after[|before|].operation == Inserting && after[|before|].targetValue == Some(v)
    requires EndsClean(after, t)
    ensures InsertRecorded(before, after, v, t)
  {
  }

  class RedBlackTree {
    var root: Tree
    var steps: seq<Step>

    ghost predicate Valid()
      reads this
    {
      IsRedBlack(root) && Bst(root)
    }

    /** An empty tree with one initial step. */
    constructor ()
      ensures Valid() && root == Leaf
      ensures steps == [Step(Inserting, Leaf, None, None, [])]
    {
      root := Leaf;
      steps := [Snapshot(Inserting, Leaf, None, None)];
    }

    /** `addStep`: record the current tree and its violations. */
    method AddStep(op: Operation, target: Option<int>, found: Option<bool>)
      modifies this
      ensures root == old(root)
      ensures steps == old(steps) + [Snapshot(op, root, target, found)]
    {
      steps := steps + [Snapshot(op, root, target, found)];
    }

    /** The search-tree walk of `insert`: it stops at a node holding v or
        falls off the tree below the ancestors `path`, where v belongs. */
    method Locate(v: int) returns (found: bool, path: seq<Frame>)
      requires Valid()
      ensures found <==> v in Elements(root)
      ensures !found ==> Plug(Leaf, path) == root && Intact(Leaf, path) && Around(path, v)
      ensures !found ==> InOrder(root) == Before(path) + After(path)
    {
      var focus := root;
      path := [];
      while focus.Node?
        invariant Walking(root, focus, path, v)
        decreases focus
      {
        if v == focus.value {
          WalkEnd(root, focus, path, v);
          return true, path;
        }
        WalkDown(root, focus, path, v);
        if v < focus.value {
          focus, path := focus.left, [Frame(Left, focus.color, focus.value, focus.right)] + path;
        } else {
          focus, path := focus.right, [Frame(Right, focus.color, focus.value, focus.left)] + path;
        }
      }
      WalkEnd(root, focus, path, v);
      return false, path;
    }

    /** `insert`: a black root in an empty tree; otherwise the search-tree
        walk, which stops at an equal value, then a red leaf and the fixup. */
    method Insert(v: int)
      requires Valid()
      modifies this
      ensures Valid()
      ensures Elements(root) == Elements(old(root)) + {v}
      ensures v in Elements(old(root)) ==> root == old(root)
      ensures old(root) == Leaf ==> root == Node(Black, Leaf, v, Leaf)
      ensures InsertRecorded(old(steps), steps, v, root)
    {
      if root == Leaf {
        InsertFirst(v);
        return;
      }
      var found, path := Locate(v);
      if found {
        CheckViolationsExact(root);
        AddStep(Inserting, Some(v), None);
        RecordedAlone(old(steps), v, root);
        return;
      }
      ghost var before := steps;
      InsertAt(v, path);
      RecordedFixed(before, steps, v, root);
    }

    /** `insert` into the empty tree: the new node becomes the root,
        coloured black. */
    method InsertFirst(v: int)
      requires root == Leaf
      modifies this
      ensures root == Node(Black, Leaf, v, Leaf) && Valid() && Elements(root) == {v}
      ensures InsertRecorded(old(steps), steps, v, root)
    {
      root := Node(Black, Leaf, v, Leaf);
      SingleNode(v);
      AddStep(Inserting, Some(v), None);
      RecordedAlone(old(steps), v, root);
    }

    /** The part of `insert` after a walk that fell off the tree: the new
        node hangs red below `path`, one step shows it, and the fixup
        restores the red-black rules. */
    method InsertAt(v: int, path: seq<Frame>)
      requires Valid() && Plug(Leaf, path) == root && Intact(Leaf, path) && Around(path, v)
      requires InOrder(root) == Before(path) + After(path)
      modifies this
      ensures Valid() && Elements(root) == Elements(old(root)) + {v}
      ensures Extends(old(steps), steps) && |steps| > |old(steps)| + 1
      ensures steps[|old(steps)|] == Snapshot(Inserting, Plug(Node(Red, Leaf, v, Leaf), path), Some(v), None)
      ensures steps[|old(steps)|].operation == Inserting && steps[|old(steps)|].targetValue == Some(v)
      ensures EndsClean(steps, root)
    {
      Hung(path, v);
      var node := Node(Red, Leaf, v, Leaf);
      root := Plug(node, path);
      ghost var hung := root;
      AddStep(Inserting, Some(v), None);
      ghost var shown := steps;
      InsertFixup(node, path);
      SameElements(root, hung);
      assert steps[|old(steps)|] == shown[|old(steps)|];
    }

    /** `insertFixup`: while the node has a red parent, recolour (red
        uncle) or rotate (black uncle), then colour the root black. */
    method InsertFixup(node: Tree, above: seq<Frame>)
      requires Fixing(node, above) && root == Plug(node, above)
      modifies this
      ensures IsRedBlack(root) && InOrder(root) == InOrder(old(root))
      ensures Extends(old(steps), steps) && |steps| > |old(steps)|
      ensures EndsClean(steps, root)
    {
      var focus, path := node, above;
      ghost var listing := InOrder(root);
      while |path| > 0 && path[0].color == Red
        invariant Fixing(focus, path) && root == Plug(focus, path) && InOrder(root) == listing
        invariant Extends(old(steps), steps)
        decreases |path|
      {
        if IsRed(path[1].sibling) {
          focus, path := RedUncle(focus, path);
        } else if path[1].side == Left {
          focus, path := BlackUncleLeft(focus, path);
        } else {
          focus, path := BlackUncleRight(focus, path);
        }
      }
      FixingDone(focus, path);
      root := Blacken(root);
      AddStep(Recoloring, None, None);
      CheckViolationsExact(root);
    }

    /** Case 1 of `insertFixup`, on either side: parent and uncle turn
        black, the grandparent red, and the grandparent is the next node. */
    method RedUncle(focus: Tree, path: seq<Frame>) returns (focus': Tree, path': seq<Frame>)
      requires Fixing(focus, path) && root == Plug(focus, path)
      requires |path| >= 2 && path[0].color == Red && IsRed(path[1].sibling)
      modifies this
      ensures Fixing(focus', path') && root == Plug(focus', path') && |path'| < |path|
      ensures InOrder(root) == InOrder(old(root)) && Extends(old(steps), steps)
    {
      RecolorFixes(focus, path);
      focus', path' := Recolor(focus, path), path[2..];
      root := Plug(focus', path');
      AddStep(Recoloring, None, None);
    }

    /** Cases 2 and 3 of `insertFixup` when the parent is a left child and
        the uncle black: a left rotation at the parent when the node is a
        right child, then parent black, grandparent red and a right
        rotation at the grandparent. The node keeps a black parent. */
    method BlackUncleLeft(focus: Tree, path: seq<Frame>) returns (focus': Tree, path': seq<Frame>)
      requires Fixing(focus, path) && root == Plug(focus, path)
      requires |path| >= 2 && path[0].color == Red && path[1].side == Left && !IsRed(path[1].sibling)
      modifies this
      ensures Fixing(focus', path') && root == Plug(focus', path') && |path'| < |path|
      ensures |path'| > 0 && path'[0].color == Black
      ensures InOrder(root) == InOrder(old(root)) && Extends(old(steps), steps)
    {
      focus', path' := focus, path;
      if path'[0].side == Right {
        InnerLeft(focus', path');
        var t := RotateLeft(Attach(path'[0], focus'));
        focus', path' := t.left, [Frame(Left, t.color, t.value, t.right)] + path'[1..];
        root := Plug(focus', path');
        AddStep(Rotating, None, None);
      }
      OuterLeft(focus', path');
      path' := [path'[0].(color := Black), path'[1].(color := Red)] + path'[2..];
      root := Plug(focus', path');
      AddStep(Recoloring, None, None);
      var t := RotateRight(Attach(path'[1], Attach(path'[0], focus')));
      path' := [Frame(Left, t.color, t.value, t.right)] + path'[2..];
      root := Plug(focus', path');
      AddStep(Rotating, None, None);
    }

    /** Cases 2 and 3 of `insertFixup` when the parent is a right child,
        the mirror image of `BlackUncleLeft`. */
    method BlackUncleRight(focus: Tree, path: seq<Frame>) returns (focus': Tree, path': seq<Frame>)
      requires Fixing(focus, path) && root == Plug(focus, path)
      requires |path| >= 2 && path[0].color == Red && path[1].side == Right && !IsRed(path[1].sibling)
      modifies this
      ensures Fixing(focus', path') && root == Plug(focus', path') && |path'| < |path|
      ensures |path'| > 0 && path'[0].color == Black
      ensures InOrder(root) == InOrder(old(root)) && Extends(old(steps), steps)
    {
      focus', path' := focus, path;
      if path'[0].side == Left {
        InnerRight(focus', path');
        var t := RotateRight(Attach(path'[0], focus'));
        focus', path' := t.right, [Frame(Right, t.color, t.value, t.left)] + path'[1..];
        root := Plug(focus', path');
        AddStep(Rotating, None, None);
      }
      OuterRight(focus', path');
      path' := [path'[0].(color := Black), path'[1].(color := Red)] + path'[2..];
      root := Plug(focus', path');
      AddStep(Recoloring, None, None);
      var t := RotateLeft(Attach(path'[1], Attach(path'[0], focus')));
      path' := [Frame(Right, t.color, t.value, t.left)] + path'[2..];
      root := Plug(focus', path');
      AddStep(Rotating, None, None);
    }
    /** `search`: walk down from the root, one step per node passed, and
        a last step saying whether v was found. */
    method Search(v: int) returns (found: bool)
      modifies this
      ensures root == old(root)
      ensures found ==> v in Elements(root)
      ensures Bst(root) && v in Elements(root) ==> found
      ensures Extends(old(steps), steps) && |steps| == |old(steps)| + Passed(root, v) + 1
      ensures steps[|steps| - 1] == Snapshot(Searching, root, Some(v), Some(found))
      ensures forall i :: |old(steps)| <= i < |steps| - 1 ==> steps[i] == Snapshot(Searching, root, Some(v), None)
    {
      var current := root;
      while current.Node?
        invariant root == old(root) && Extends(old(steps), steps)
        invariant Elements(current) <= Elements(root)
        invariant Bst(root) ==> Bst(current) && (v in Elements(root) ==> v in Elements(current))
        invariant forall i :: |old(steps)| <= i < |steps| ==> steps[i] == Snapshot(Searching, root, Some(v), None)
        invariant |steps| + Passed(current, v) == |old(steps)| + Passed(root, v)
        decreases current
      {
        if v == current.value {
          AddStep(Searching, Some(v), Some(true));
          return true;
        }
        AddStep(Searching, Some(v), None);
        ElementsOfNode(current);
        if Bst(root) {
          SearchDescend(current, v);
        }
        current := if v < current.value then current.left else current.right;
      }
      AddStep(Searching, Some(v), Some(false));
      return false;
    }
  }
}
