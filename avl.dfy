/** The AVL tree visualizer: a self-balancing search tree whose nodes
    store their own height. Insertion and deletion rebuild the path they
    walk, recomputing each stored height and rotating wherever the two
    sides differ in height by more than one. The handlers work on a JSON
    copy of the tree, so the tree is modelled as a value. */
module AvlTree {
  import opened Common

  /** `AVLNode`: a value, the stored height and two children. */
  datatype Avl = Leaf | Node(left: Avl, value: int, height: nat, right: Avl)

  function Elements(t: Avl): set<int> {
    match t
    case Leaf => {}
    case Node(l, x, _, r) => Elements(l) + {x} + Elements(r)
  }

  function InOrder(t: Avl): seq<int> {
    match t
    case Leaf => []
    case Node(l, x, _, r) => InOrder(l) + [x] + InOrder(r)
  }

  /** Smaller values to the left, larger to the right. */
  ghost predicate Bst(t: Avl) {
    t.Node? ==>
      && Bst(t.left) && Bst(t.right)
      && (forall y :: y in Elements(t.left) ==> y < t.value)
      && (forall y :: y in Elements(t.right) ==> t.value < y)
  }

  /** `getHeight`: the stored height, 0 for an empty tree. */
  function H(t: Avl): nat {
    if t.Leaf? then 0 else t.height
  }

  /** `getBalanceFactor`: left height minus right height. */
  function BalanceFactor(t: Avl): int {
    if t.Leaf? then 0 else H(t.left) - H(t.right)
  }

  /** A node after `updateHeight`: one more than its taller child. */
  function Mk(l: Avl, x: int, r: Avl): Avl {
    Node(l, x, 1 + Max(H(l), H(r)), r)
  }

  /** The height of a tree, counted in nodes. */
  function Height(t: Avl): nat {
    if t.Leaf? then 0 else 1 + Max(Height(t.left), Height(t.right))
  }

  /** Every stored height is what `updateHeight` would set. */
  ghost predicate Heights(t: Avl) {
    t.Node? ==> t.height == 1 + Max(H(t.left), H(t.right)) && Heights(t.left) && Heights(t.right)
  }

  /** Every balance factor is -1, 0 or 1. */
  ghost predicate Balanced(t: Avl) {
    t.Node? ==> -1 <= H(t.left) - H(t.right) <= 1 && Balanced(t.left) && Balanced(t.right)
  }

  /** The invariant the visualizer keeps: a balanced search tree whose
      stored heights are right. */
  ghost predicate IsAvl(t: Avl) {
    Bst(t) && Heights(t) && Balanced(t)
  }

  /** With heights kept up to date, `getHeight` gives the real height. */
  lemma {:induction false} HeightsAgree(t: Avl)
    requires Heights(t)
    ensures H(t) == Height(t)
  {
    if t.Node? {
      HeightsAgree(t.left);
      HeightsAgree(t.right);
    }
  }

  /** The number of nodes. */
  function Size(t: Avl): nat {
    if t.Leaf? then 0 else 1 + Size(t.left) + Size(t.right)
  }

  lemma {:induction false} FibMonotone(i: nat, j: nat)
    requires i <= j
    ensures Fib(i) <= Fib(j)
    decreases j
  {
    if i < j {
      FibMonotone(i, j - 1);
      if j >= 2 {
        assert Fib(j) == Fib(j - 1) + Fib(j - 2);
      }
    }
  }

  /** Why the tree is kept balanced: a balanced tree of height h holds at
      least Fib(h + 2) - 1 nodes, so its height grows only
      logarithmically with its size. */
  lemma {:induction false} BalancedIsShallow(t: Avl)
    requires Heights(t) && Balanced(t)
    ensures Size(t) + 1 >= Fib(H(t) + 2)
  {
    if t.Node? {
      var l, r := t.left, t.right;
      BalancedIsShallow(l);
      BalancedIsShallow(r);
      var h := H(t);
      assert Fib(h + 2) == Fib(h + 1) + Fib(h);
      if H(l) >= H(r) {
        FibMonotone(h, H(r) + 2);
      } else {
        FibMonotone(h, H(l) + 2);
      }
    }
  }

  /** `rightRotate`: the left child becomes the root and the old root
      its right child, taking over that child's right subtree. */
  function RightRotate(t: Avl): (res: Avl)
    requires t.Node? && t.left.Node?
    ensures InOrder(res) == InOrder(t) && Elements(res) == Elements(t)
    ensures Bst(t) ==> Bst(res)
    ensures Heights(t.left) && Heights(t.right) ==> Heights(res)
  {
    var x := t.left;
    RightRotateBst(t);
    Mk(x.left, x.value, Mk(x.right, t.value, t.right))
  }

  /** `leftRotate`: the mirror image. */
  function LeftRotate(t: Avl): (res: Avl)
    requires t.Node? && t.right.Node?
    ensures InOrder(res) == InOrder(t) && Elements(res) == Elements(t)
    ensures Bst(t) ==> Bst(res)
    ensures Heights(t.left) && Heights(t.right) ==> Heights(res)
  {
    var y := t.right;
    LeftRotateBst(t);
    Mk(Mk(t.left, t.value, y.left), y.value, y.right)
  }

  lemma RightRotateBst(t: Avl)
    requires t.Node? && t.left.Node?
    ensures Bst(t) ==> Bst(Mk(t.left.left, t.left.value, Mk(t.left.right, t.value, t.right)))
  {
    if !Bst(t) {
      return;
    }
    var x := t.left;
    assert Bst(x);
    forall y | y in Elements(x.right)
      ensures y < t.value
    {
      assert y in Elements(x);
    }
    assert x.value in Elements(x);
  }

  lemma LeftRotateBst(t: Avl)
    requires t.Node? && t.right.Node?
    ensures Bst(t) ==> Bst(Mk(Mk(t.left, t.value, t.right.left), t.right.value, t.right.right))
  {
    if !Bst(t) {
      return;
    }
    var y := t.right;
    assert Bst(y);
    forall z | z in Elements(y.left)
      ensures t.value < z
    {
      assert z in Elements(y);
    }
    assert y.value in Elements(y);
  }

  /** Which rotations `insertNode` can reach without a missing child:
      the double rotations need the inner grandchild. */
  ghost predicate Rotatable(l: Avl, r: Avl, v: int) {
    && (H(l) > H(r) + 1 && v > l.value ==> l.right.Node?)
    && (H(r) > H(l) + 1 && v < r.value ==> r.left.Node?)
  }

  /** The rebalancing that ends `insertNode`: the height is updated, and
      a side more than one taller is rotated back according to where the
      inserted value went below it. */
  function InsertRebalance(l: Avl, x: int, r: Avl, v: int): (res: Avl)
    requires Rotatable(l, r, v)
    ensures InOrder(res) == InOrder(l) + [x] + InOrder(r)
    ensures Elements(res) == Elements(l) + {x} + Elements(r)
    ensures Bst(Mk(l, x, r)) ==> Bst(res)
    ensures Heights(l) && Heights(r) ==> Heights(res)
  {
    var n := Mk(l, x, r);
    var balance := H(l) - H(r);
    if balance > 1 && v < l.value then RightRotate(n)
    else if balance < -1 && v > r.value then LeftRotate(n)
    else if balance > 1 && v > l.value then RightRotate(Node(LeftRotate(l), x, n.height, r))
    else if balance < -1 && v < r.value then LeftRotate(Node(l, x, n.height, RightRotate(r)))
    else n
  }

  /** The rebalancing that ends `deleteNode`: as for insertion, but the
      rotation is chosen by the balance factor of the taller child. */
  function DeleteRebalance(l: Avl, x: int, r: Avl): (res: Avl)
    ensures InOrder(res) == InOrder(l) + [x] + InOrder(r)
    ensures Elements(res) == Elements(l) + {x} + Elements(r)
    ensures Bst(Mk(l, x, r)) ==> Bst(res)
    ensures Heights(l) && Heights(r) ==> Heights(res)
  {
    var n := Mk(l, x, r);
    var balance := H(l) - H(r);
    if balance > 1 && BalanceFactor(l) >= 0 then RightRotate(n)
    else if balance > 1 && BalanceFactor(l) < 0 then RightRotate(Node(LeftRotate(l), x, n.height, r))
    else if balance < -1 && BalanceFactor(r) <= 0 then LeftRotate(n)
    else if balance < -1 && BalanceFactor(r) > 0 then LeftRotate(Node(l, x, n.height, RightRotate(r)))
    else n
  }

  /** How an insertion may change a tree's height: by at most one, and
      when it grows a non-empty tree the root stays and leans towards the
      side the value went to. */
  ghost predicate Grows(t: Avl, t': Avl, v: int) {
    && H(t) <= H(t') <= H(t) + 1
    && (H(t') == H(t) + 1 && t.Node? ==>
          && t'.Node? && t'.value == t.value && v != t.value
          && (v < t.value ==> H(t'.left) == H(t'.right) + 1)
          && (v > t.value ==> H(t'.right) == H(t'.left) + 1))
  }

  /** `insertNode` on the copied tree, with whether the value was a
      duplicate (the "already exists" error). An AVL tree stays an AVL
      tree holding one value more; a duplicate changes nothing. */
  function Insert(t: Avl, v: int): (res: (Avl, bool))
    requires IsAvl(t)
    ensures IsAvl(res.0) && Elements(res.0) == Elements(t) + {v}
    ensures res.1 <==> v in Elements(t)
    ensures res.1 ==> res.0 == t
    ensures Grows(t, res.0, v)
  {
    match t
    case Leaf => (Mk(Leaf, v, Leaf), false)
    case Node(l, x, _, r) =>
      if v < x then
        var (l', duplicate) := Insert(l, v);
        InsertedLeft(t, v, l');
        (InsertRebalance(l', x, r, v), duplicate)
      else if v > x then
        var (r', duplicate) := Insert(r, v);
        InsertedRight(t, v, r');
        (InsertRebalance(l, x, r', v), duplicate)
      else (t, true)
  }

  /** The step of `Insert` after inserting into the left subtree. */
  lemma InsertedLeft(t: Avl, v: int, l': Avl)
    requires IsAvl(t) && t.Node? && v < t.value
    requires IsAvl(l') && Elements(l') == Elements(t.left) + {v}
    requires v in Elements(t.left) ==> l' == t.left
    requires Grows(t.left, l', v)
    ensures Rotatable(l', t.right, v)
    ensures var res := InsertRebalance(l', t.value, t.right, v);
      IsAvl(res) && Elements(res) == Elements(t) + {v}
      && (v in Elements(t) ==> res == t) && Grows(t, res, v)
  {
    var l, x, r := t.left, t.value, t.right;
    assert Bst(Mk(l', x, r));
    InsertRebalanceAvl(l', x, r, v);
    if v in Elements(t) {
      assert v !in Elements(r);
    }
  }

  /** The step of `Insert` after inserting into the right subtree. */
  lemma InsertedRight(t: Avl, v: int, r': Avl)
    requires IsAvl(t) && t.Node? && v > t.value
    requires IsAvl(r') && Elements(r') == Elements(t.right) + {v}
    requires v in Elements(t.right) ==> r' == t.right
    requires Grows(t.right, r', v)
    ensures Rotatable(t.left, r', v)
    ensures var res := InsertRebalance(t.left, t.value, r', v);
      IsAvl(res) && Elements(res) == Elements(t) + {v}
      && (v in Elements(t) ==> res == t) && Grows(t, res, v)
  {
    var l, x, r := t.left, t.value, t.right;
    assert Bst(Mk(l, x, r'));
    InsertRebalanceAvl(l, x, r', v);
    if v in Elements(t) {
      assert v !in Elements(l);
    }
  }

  /** After an insertion one side is at most two taller than the other,
      and when it is two taller it leans the way the value went; the
      rotations then restore the balance and the side's height. */
  lemma InsertRebalanceAvl(l: Avl, x: int, r: Avl, v: int)
    requires Heights(l) && Heights(r) && Balanced(l) && Balanced(r)
    requires -2 <= H(l) - H(r) <= 2
    requires H(l) == H(r) + 2 ==>
      (l.Node? && v != l.value
       && (v < l.value ==> H(l.left) == H(l.right) + 1) && (v > l.value ==> H(l.right) == H(l.left) + 1))
    requires H(r) == H(l) + 2 ==>
      (r.Node? && v != r.value
       && (v > r.value ==> H(r.right) == H(r.left) + 1) && (v < r.value ==> H(r.left) == H(r.right) + 1))
    ensures Rotatable(l, r, v)
    ensures var res := InsertRebalance(l, x, r, v);
      && Balanced(res)
      && (-1 <= H(l) - H(r) <= 1 ==> res == Mk(l, x, r))
      && (H(l) == H(r) + 2 ==> H(res) == H(l))
      && (H(r) == H(l) + 2 ==> H(res) == H(r))
  {
    if H(l) == H(r) + 2 {
      if v < l.value {
        SingleRight(l, x, r);
      } else {
        DoubleRight(l, x, 1 + Max(H(l), H(r)), r);
      }
    } else if H(r) == H(l) + 2 {
      if v > r.value {
        SingleLeft(l, x, r);
      } else {
        DoubleLeft(l, x, 1 + Max(H(l), H(r)), r);
      }
    }
  }

  /** After a deletion one side is at most two taller than the other; the
      rotations restore the balance, leaving the taller side's height or
      one more. */
  lemma DeleteRebalanceAvl(l: Avl, x: int, r: Avl)
    requires Heights(l) && Heights(r) && Balanced(l) && Balanced(r)
    requires -2 <= H(l) - H(r) <= 2
    ensures var res := DeleteRebalance(l, x, r);
      && Balanced(res)
      && (-1 <= H(l) - H(r) <= 1 ==> res == Mk(l, x, r))
      && (H(l) == H(r) + 2 ==> H(l) <= H(res) <= H(l) + 1)
      && (H(r) == H(l) + 2 ==> H(r) <= H(res) <= H(r) + 1)
  {
    if H(l) == H(r) + 2 {
      if BalanceFactor(l) >= 0 {
        SingleRight(l, x, r);
      } else {
        DoubleRight(l, x, 1 + Max(H(l), H(r)), r);
      }
    } else if H(r) == H(l) + 2 {
      if BalanceFactor(r) <= 0 {
        SingleLeft(l, x, r);
      } else {
        DoubleLeft(l, x, 1 + Max(H(l), H(r)), r);
      }
    }
  }

  /** A single right rotation when the left side is two taller and does
      not lean right. */
  lemma SingleRight(l: Avl, x: int, r: Avl)
    requires Heights(l) && Heights(r) && Balanced(l) && Balanced(r)
    requires l.Node? && H(l) == H(r) + 2 && H(l.left) >= H(l.right)
    ensures Balanced(RightRotate(Mk(l, x, r)))
    ensures H(RightRotate(Mk(l, x, r))) == if H(l.left) == H(l.right) then H(l) + 1 else H(l)
  {
    assert Balanced(Mk(l.right, x, r));
  }

  /** A left-right double rotation when the left side is two taller and
      leans right. */
  lemma DoubleRight(l: Avl, x: int, h: nat, r: Avl)
    requires Heights(l) && Heights(r) && Balanced(l) && Balanced(r)
    requires l.Node? && H(l) == H(r) + 2 && H(l.left) < H(l.right)
    ensures l.right.Node?
    ensures Balanced(RightRotate(Node(LeftRotate(l), x, h, r)))
    ensures H(RightRotate(Node(LeftRotate(l), x, h, r))) == H(l)
  {
    var b := l.right;
    assert Balanced(Mk(l.left, l.value, b.left));
    assert Balanced(Mk(b.right, x, r));
  }

  lemma SingleLeft(l: Avl, x: int, r: Avl)
    requires Heights(l) && Heights(r) && Balanced(l) && Balanced(r)
    requires r.Node? && H(r) == H(l) + 2 && H(r.right) >= H(r.left)
    ensures Balanced(LeftRotate(Mk(l, x, r)))
    ensures H(LeftRotate(Mk(l, x, r))) == if H(r.left) == H(r.right) then H(r) + 1 else H(r)
  {
    assert Balanced(Mk(l, x, r.left));
  }

  lemma DoubleLeft(l: Avl, x: int, h: nat, r: Avl)
    requires Heights(l) && Heights(r) && Balanced(l) && Balanced(r)
    requires r.Node? && H(r) == H(l) + 2 && H(r.right) < H(r.left)
    ensures r.left.Node?
    ensures Balanced(LeftRotate(Node(l, x, h, RightRotate(r))))
    ensures H(LeftRotate(Node(l, x, h, RightRotate(r)))) == H(r)
  {
    var b := r.left;
    assert Balanced(Mk(l, x, b.left));
    assert Balanced(Mk(b.right, r.value, r.right));
  }

  /** `findMin`: follow left children. */
  function FindMin(t: Avl): (m: int)
    requires t.Node?
    ensures m in Elements(t)
  {
    if t.left.Leaf? then t.value else FindMin(t.left)
  }

  /** In a search tree `findMin` gives the smallest value. */
  lemma {:induction false} FindMinLeast(t: Avl)
    requires t.Node? && Bst(t)
    ensures forall y :: y in Elements(t) ==> FindMin(t) <= y
  {
    if t.left.Node? {
      FindMinLeast(t.left);
    }
  }

  /** `deleteNode` on the copied tree, with whether the search fell off
      the tree (the "not found" error). A node with a missing child is
      replaced by its other child, rebalanced on its own; a node with two
      children takes the smallest value of its right subtree, which is
      then deleted there. Every node on the way back is rebalanced. */
  function Delete(t: Avl, v: int): (Avl, bool)
  {
    match t
    case Leaf => (Leaf, true)
    case Node(l, x, _, r) =>
      if v < x then
        var (l', missing) := Delete(l, v);
        (DeleteRebalance(l', x, r), missing)
      else if v > x then
        var (r', missing) := Delete(r, v);
        (DeleteRebalance(l, x, r'), missing)
      else if l.Leaf? || r.Leaf? then
        var child := if l.Node? then l else r;
        (if child.Leaf? then Leaf else DeleteRebalance(child.left, child.value, child.right), false)
      else
        var m := FindMin(r);
        var (r', missing) := Delete(r, m);
        (DeleteRebalance(l, m, r'), missing)
  }

  /** What deleting v from the AVL tree t may give: an AVL tree without
      v and otherwise the same values, at most one lower; the not-found
      flag is raised exactly when v was absent, and then nothing changes. */
  ghost predicate Removes(t: Avl, v: int, t': Avl, missing: bool) {
    && IsAvl(t') && Elements(t') == Elements(t) - {v}
    && (missing <==> v !in Elements(t)) && (missing ==> t' == t)
    && H(t) - 1 <= H(t') <= H(t)
  }

  /** Deleting from an AVL tree: a missing value is reported and changes
      nothing; otherwise exactly that value goes. The result is an AVL
      tree at most one lower. */
  lemma {:induction false} DeleteCorrect(t: Avl, v: int)
    requires IsAvl(t)
    ensures Removes(t, v, Delete(t, v).0, Delete(t, v).1)
  {
    match t
    case Leaf =>
    case Node(l, x, _, r) =>
      if v < x {
        DeleteCorrect(l, v);
        DeletedLeft(t, v, Delete(l, v).0, Delete(l, v).1);
      } else if v > x {
        DeleteCorrect(r, v);
        DeletedRight(t, v, Delete(r, v).0, Delete(r, v).1);
      } else if l.Leaf? || r.Leaf? {
        DeletedOnlyChild(t);
      } else {
        var m := FindMin(r);
        FindMinLeast(r);
        DeleteCorrect(r, m);
        DeletedSuccessor(t, m, Delete(r, m).0, Delete(r, m).1);
      }
  }

  /** The step of `Delete` after deleting from the left subtree. */
  lemma DeletedLeft(t: Avl, v: int, l': Avl, missing: bool)
    requires IsAvl(t) && t.Node? && v < t.value
    requires Removes(t.left, v, l', missing)
    ensures Removes(t, v, DeleteRebalance(l', t.value, t.right), missing)
  {
    var l, x, r := t.left, t.value, t.right;
    assert Bst(Mk(l', x, r));
    DeleteRebalanceAvl(l', x, r);
    assert v !in Elements(r);
  }

  /** The step of `Delete` after deleting from the right subtree. */
  lemma DeletedRight(t: Avl, v: int, r': Avl, missing: bool)
    requires IsAvl(t) && t.Node? && v > t.value
    requires Removes(t.right, v, r', missing)
    ensures Removes(t, v, DeleteRebalance(t.left, t.value, r'), missing)
  {
    var l, x, r := t.left, t.value, t.right;
    assert Bst(Mk(l, x, r'));
    DeleteRebalanceAvl(l, x, r');
    assert v !in Elements(l);
  }

  /** The step of `Delete` at a node with a missing child: the other child
      takes its place. */
  lemma DeletedOnlyChild(t: Avl)
    requires IsAvl(t) && t.Node? && (t.left.Leaf? || t.right.Leaf?)
    ensures var child := if t.left.Node? then t.left else t.right;
      Removes(t, t.value, if child.Leaf? then Leaf else DeleteRebalance(child.left, child.value, child.right), false)
  {
    var child := if t.left.Node? then t.left else t.right;
    assert Heights(child) && Balanced(child);
    if child.Node? {
      DeleteRebalanceAvl(child.left, child.value, child.right);
    }
    assert t.value !in Elements(t.left) && t.value !in Elements(t.right);
  }

  /** The step of `Delete` at a node with two children: its value is
      replaced by the right subtree's smallest, m, deleted from there. */
  lemma DeletedSuccessor(t: Avl, m: int, r': Avl, missing: bool)
    requires IsAvl(t) && t.Node? && t.left.Node? && t.right.Node?
    requires m in Elements(t.right) && forall y :: y in Elements(t.right) ==> m <= y
    requires Removes(t.right, m, r', missing)
    ensures Removes(t, t.value, DeleteRebalance(t.left, m, r'), missing)
  {
    var l, x, r := t.left, t.value, t.right;
    assert x < m;
    forall y | y in Elements(l)
      ensures y < m
    {
    }
    assert Bst(Mk(l, m, r'));
    DeleteRebalanceAvl(l, m, r');
    assert x !in Elements(l) && x !in Elements(r);
  }

  /** The messages the handlers put in the error banner. */
  datatype AvlError = InvalidNumber | InvalidDeleteNumber | AlreadyExists(value: int) | NotFound(value: int)

  /** The visualizer's state: the tree and the error banner. */
  class AvlVisualizer {
    var root: Avl
    var error: Option<AvlError>

    ghost predicate Valid()
      reads this
    {
      IsAvl(root)
    }

    constructor ()
      ensures Valid() && root == Leaf && error == None
    {
      root := Leaf;
      error := None;
    }

    /** `handleInsert`: text that is not a number is rejected; a duplicate
        sets the error and leaves the tree as it was; otherwise the value
        joins the tree, which stays an AVL tree and grows by at most one
        level. */
    method HandleInsert(inputValue: string)
      requires Valid()
      modifies this
      ensures Valid()
      ensures ParseDecimal(inputValue).None? ==> root == old(root) && error == Some(InvalidNumber)
      ensures ParseDecimal(inputValue).Some? && ParseDecimal(inputValue).value in Elements(old(root)) ==>
        root == old(root) && error == Some(AlreadyExists(ParseDecimal(inputValue).value))
      ensures ParseDecimal(inputValue).Some? && ParseDecimal(inputValue).value !in Elements(old(root)) ==>
        Elements(root) == Elements(old(root)) + {ParseDecimal(inputValue).value} && error == None
        && H(old(root)) <= H(root) <= H(old(root)) + 1
    {
      error := None;
      var parsed := ParseDecimal(inputValue);
      if parsed.None? {
        error := Some(InvalidNumber);
        return;
      }
      var value := parsed.value;
      var (newRoot, duplicate) := Insert(root, value);
      if duplicate {
        error := Some(AlreadyExists(value));
      }
      root := newRoot;
    }

    /** `handleDelete`: text that is not a number is rejected; a missing
        value sets the error and leaves the tree as it was; otherwise the
        value leaves the tree, which stays an AVL tree and sinks by at most
        one level. */
    method HandleDelete(deleteValue: string)
      requires Valid()
      modifies this
      ensures Valid()
      ensures ParseDecimal(deleteValue).None? ==> root == old(root) && error == Some(InvalidDeleteNumber)
      ensures ParseDecimal(deleteValue).Some? && ParseDecimal(deleteValue).value !in Elements(old(root)) ==>
        root == old(root) && error == Some(NotFound(ParseDecimal(deleteValue).value))
      ensures ParseDecimal(deleteValue).Some? && ParseDecimal(deleteValue).value in Elements(old(root)) ==>
        Elements(root) == Elements(old(root)) - {ParseDecimal(deleteValue).value} && error == None
        && H(old(root)) - 1 <= H(root) <= H(old(root))
    {
      error := None;
      var parsed := ParseDecimal(deleteValue);
      if parsed.None? {
        error := Some(InvalidDeleteNumber);
        return;
      }
      var value := parsed.value;
      var (newRoot, missing) := Delete(root, value);
      DeleteCorrect(root, value);
      if missing {
        error := Some(NotFound(value));
      }
      root := newRoot;
    }

    /** `handleReset`: an empty tree and no error. */
    method HandleReset()
      modifies this
      ensures Valid() && root == Leaf && error == None
    {
      root := Leaf;
      error := None;
    }
  }
}
