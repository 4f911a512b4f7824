/** The binary search tree visualizer: integers typed into input boxes are
    inserted, searched for and deleted. Each handler works on a deep JSON
    copy of the root, so the recursive functions that reassign `left`,
    `right` and `value` fields only ever touch a private copy; the model
    writes them as functions on a tree value. The component's state (root,
    error banner, found node, operation history) is a class. */
module BinarySearchTree {
  import opened Common

  datatype Tree = Nil | Node(left: Tree, value: int, right: Tree)

  function Elements(t: Tree): set<int> {
    match t
    case Nil => {}
    case Node(l, v, r) => Elements(l) + {v} + Elements(r)
  }

  /** Every value in the left subtree is smaller and every value in the
      right subtree larger than the node's, at every node. */
  ghost predicate Bst(t: Tree) {
    match t
    case Nil => true
    case Node(l, v, r) =>
      Bst(l) && Bst(r) && (forall x :: x in Elements(l) ==> x < v) && (forall x :: x in Elements(r) ==> v < x)
  }

  /** `calculateDepth`: the number of nodes on the longest path from the
      root. */
  function CalculateDepth(t: Tree): (d: nat)
    ensures d == 0 <==> t == Nil
  {
    match t
    case Nil => 0
    case Node(l, _, r) => 1 + Max(CalculateDepth(l), CalculateDepth(r))
  }

  /** `countNodes`. */
  function CountNodes(t: Tree): (n: nat)
    ensures n == 0 <==> t == Nil
  {
    match t
    case Nil => 0
    case Node(l, _, r) => 1 + CountNodes(l) + CountNodes(r)
  }

  function Pow2(k: nat): (p: nat)
    ensures p >= 1
  {
    if k == 0 then 1 else 2 * Pow2(k - 1)
  }

  /** A tree has at least as many nodes as levels and fewer than 2^depth. */
  lemma {:induction false} DepthCount(t: Tree)
    ensures CalculateDepth(t) <= CountNodes(t) < Pow2(CalculateDepth(t))
  {
    match t
    case Nil =>
    case Node(l, _, r) =>
      DepthCount(l);
      DepthCount(r);
      var d := Max(CalculateDepth(l), CalculateDepth(r));
      PowMonotone(CalculateDepth(l), d);
      PowMonotone(CalculateDepth(r), d);
  }

  lemma {:induction false} PowMonotone(i: nat, j: nat)
    requires i <= j
    ensures Pow2(i) <= Pow2(j)
    decreases j
  {
    if i < j {
      PowMonotone(i, j - 1);
    }
  }

  /** The in-order traversal (`inorder`). */
  function InOrder(t: Tree): seq<int> {
    match t
    case Nil => []
    case Node(l, v, r) => InOrder(l) + [v] + InOrder(r)
  }

  /** The pre-order traversal (`preorder`). */
  function PreOrder(t: Tree): seq<int> {
    match t
    case Nil => []
    case Node(l, v, r) => [v] + PreOrder(l) + PreOrder(r)
  }

  /** The post-order traversal (`postorder`). */
  function PostOrder(t: Tree): seq<int> {
    match t
    case Nil => []
    case Node(l, v, r) => PostOrder(l) + PostOrder(r) + [v]
  }

  /** The values of a tree, with their multiplicities. */
  function Values(t: Tree): multiset<int> {
    match t
    case Nil => multiset{}
    case Node(l, v, r) => Values(l) + multiset{v} + Values(r)
  }

  /** Every traversal visits each node once: the three orders list the
      values of the tree, as many as there are nodes. */
  lemma TraversalsAgree(t: Tree)
    ensures multiset(PreOrder(t)) == multiset(InOrder(t)) == multiset(PostOrder(t)) == Values(t)
    ensures |InOrder(t)| == CountNodes(t)
    ensures forall x :: x in InOrder(t) <==> x in Elements(t)
  {
    PreOrderValues(t);
    InOrderValues(t);
    InOrderMembers(t);
    PostOrderValues(t);
  }

  lemma {:induction false} PreOrderValues(t: Tree)
    ensures multiset(PreOrder(t)) == Values(t)
  {
    if t.Node? {
      PreOrderValues(t.left);
      PreOrderValues(t.right);
    }
  }

  lemma {:induction false} PostOrderValues(t: Tree)
    ensures multiset(PostOrder(t)) == Values(t)
  {
    if t.Node? {
      PostOrderValues(t.left);
      PostOrderValues(t.right);
    }
  }

  lemma {:induction false} InOrderValues(t: Tree)
    ensures multiset(InOrder(t)) == Values(t)
    ensures |InOrder(t)| == CountNodes(t)
  {
    if t.Node? {
      InOrderValues(t.left);
      InOrderValues(t.right);
    }
  }

  lemma {:induction false} InOrderMembers(t: Tree)
    ensures forall x :: x in InOrder(t) <==> x in Elements(t)
  {
    if t.Node? {
      InOrderMembers(t.left);
      InOrderMembers(t.right);
    }
  }

  /** The in-order traversal of a search tree is strictly increasing: the
      `inorder` traversal lists the values sorted. */
  lemma {:induction false} InOrderSorted(t: Tree)
    requires Bst(t)
    ensures Increasing(InOrder(t))
  {
    match t
    case Nil =>
    case Node(l, v, r) =>
      InOrderSorted(l);
      InOrderSorted(r);
      InOrderBounded(l, v, true);
      InOrderBounded(r, v, false);
      IncreasingJoin(InOrder(l), v, InOrder(r));
  }

  /** Bounds on the values of a tree bound its in-order listing. */
  lemma InOrderBounded(t: Tree, v: int, below: bool)
    requires below ==> forall x :: x in Elements(t) ==> x < v
    requires !below ==> forall x :: x in Elements(t) ==> v < x
    ensures below ==> forall k :: 0 <= k < |InOrder(t)| ==> InOrder(t)[k] < v
    ensures !below ==> forall k :: 0 <= k < |InOrder(t)| ==> v < InOrder(t)[k]
  {
    InOrderMembers(t);
    forall k | 0 <= k < |InOrder(t)|
      ensures InOrder(t)[k] in Elements(t)
    {
      assert InOrder(t)[k] in InOrder(t);
    }
  }

  /** A search tree holds each value once: it has as many nodes as
      values. */
  lemma {:induction false} BstCount(t: Tree)
    requires Bst(t)
    ensures CountNodes(t) == |Elements(t)|
  {
    match t
    case Nil =>
    case Node(l, v, r) =>
      BstCount(l);
      BstCount(r);
      assert Elements(l) * Elements(r) == {} by {
        forall x | x in Elements(l)
          ensures x !in Elements(r)
        {
        }
      }
      assert v !in Elements(l) + Elements(r);
  }

  /** `insertNode` on the copied tree, returning the new tree and whether
      the value was already present (the duplicate error). */
  function InsertNode(t: Tree, v: int): (Tree, bool) {
    match t
    case Nil => (Node(Nil, v, Nil), false)
    case Node(l, x, r) =>
      if v < x then
        var (l', dup) := InsertNode(l, v);
        (Node(l', x, r), dup)
      else if v > x then
        var (r', dup) := InsertNode(r, v);
        (Node(l, x, r'), dup)
      else (t, true)
  }

  /** Inserting into a search tree: a value already present is reported
      as a duplicate and changes nothing; otherwise the value is added and
      the tree stays a search tree with one more node. */
  lemma {:induction false} InsertNodeCorrect(t: Tree, v: int)
    requires Bst(t)
    ensures var (t', dup) := InsertNode(t, v);
      (dup <==> v in Elements(t)) && (dup ==> t' == t)
      && Elements(t') == Elements(t) + {v} && Bst(t')
      && CountNodes(t') == if dup then CountNodes(t) else CountNodes(t) + 1
  {
    match t
    case Nil =>
    case Node(l, x, r) =>
      if v < x {
        InsertNodeCorrect(l, v);
      } else if v > x {
        InsertNodeCorrect(r, v);
      }
  }

  /** `searchTree`: compare, then go left for a smaller value and right
      otherwise. */
  function SearchTree(t: Tree, v: int): bool {
    match t
    case Nil => false
    case Node(l, x, r) => if x == v then true else if v < x then SearchTree(l, v) else SearchTree(r, v)
  }

  /** In a search tree the search finds a value exactly when it is
      present. */
  lemma {:induction false} SearchTreeCorrect(t: Tree, v: int)
    requires Bst(t)
    ensures SearchTree(t, v) <==> v in Elements(t)
  {
    match t
    case Nil =>
    case Node(l, x, r) =>
      if v < x {
        SearchTreeCorrect(l, v);
      } else if v > x {
        SearchTreeCorrect(r, v);
      }
  }

  /** `findMin`: follow left children. */
  function FindMin(t: Tree): (m: int)
    requires t.Node?
    ensures m in Elements(t)
  {
    if t.left.Nil? then t.value else FindMin(t.left)
  }

  /** In a search tree, `findMin` gives the smallest value. */
  lemma {:induction false} FindMinLeast(t: Tree)
    requires t.Node? && Bst(t)
    ensures forall x :: x in Elements(t) ==> FindMin(t) <= x
  {
    if t.left.Node? {
      FindMinLeast(t.left);
    }
  }

  /** The result of `deleteNode`: the new tree, whether a node with the
      value was met (`deleted`), and whether the recursion fell off the
      tree (the not-found error). */
  datatype Deletion = Deletion(tree: Tree, deleted: bool, missing: bool)

  /** `deleteNode`: a node with no left child is replaced by its right
      subtree and one with no right child by its left subtree; a node with
      two children takes the smallest value of its right subtree, which
      is then deleted from that subtree. */
  function DeleteNode(t: Tree, v: int): Deletion
    decreases t
  {
    match t
    case Nil => Deletion(Nil, false, true)
    case Node(l, x, r) =>
      if v < x then
        var d := DeleteNode(l, v);
        Deletion(Node(d.tree, x, r), d.deleted, d.missing)
      else if v > x then
        var d := DeleteNode(r, v);
        Deletion(Node(l, x, d.tree), d.deleted, d.missing)
      else if l.Nil? then Deletion(r, true, false)
      else if r.Nil? then Deletion(l, true, false)
      else
        var m := FindMin(r);
        var d := DeleteNode(r, m);
        Deletion(Node(l, m, d.tree), true, d.missing)
  }

  /** Deleting from a search tree: a missing value is reported not found
      and changes nothing; a present one is removed, one node goes, and
      the tree stays a search tree. */
  lemma {:induction false} DeleteNodeCorrect(t: Tree, v: int)
    requires Bst(t)
    ensures var d := DeleteNode(t, v);
      (d.deleted <==> v in Elements(t)) && (d.missing <==> v !in Elements(t))
      && (!d.deleted ==> d.tree == t)
      && Elements(d.tree) == Elements(t) - {v} && Bst(d.tree)
      && CountNodes(d.tree) == if d.deleted then CountNodes(t) - 1 else CountNodes(t)
    decreases t
  {
    match t
    case Nil =>
    case Node(l, x, r) =>
      if v < x {
        DeleteNodeCorrect(l, v);
        DeleteLeft(l, x, r, v);
      } else if v > x {
        DeleteNodeCorrect(r, v);
        DeleteRight(l, x, r, v);
      } else if l.Node? && r.Node? {
        var m := FindMin(r);
        FindMinLeast(r);
        DeleteNodeCorrect(r, m);
        DeleteTwoChildren(l, x, r, m, DeleteNode(r, m));
      } else {
        assert x !in Elements(l) && x !in Elements(r);
      }
  }

  /** Deleting v < x from the left subtree, given that step's outcome. */
  lemma DeleteLeft(l: Tree, x: int, r: Tree, v: int)
    requires Bst(Node(l, x, r)) && v < x
    requires var d := DeleteNode(l, v);
      (d.deleted <==> v in Elements(l)) && (d.missing <==> v !in Elements(l))
      && (!d.deleted ==> d.tree == l) && Elements(d.tree) == Elements(l) - {v} && Bst(d.tree)
    ensures var d := DeleteNode(Node(l, x, r), v);
      (d.deleted <==> v in Elements(Node(l, x, r))) && (d.missing <==> v !in Elements(Node(l, x, r)))
      && (!d.deleted ==> d.tree == Node(l, x, r))
      && Elements(d.tree) == Elements(Node(l, x, r)) - {v} && Bst(d.tree)
  {
    assert v !in Elements(r);
  }

  /** Deleting v > x from the right subtree, given that step's outcome. */
  lemma DeleteRight(l: Tree, x: int, r: Tree, v: int)
    requires Bst(Node(l, x, r)) && v > x
    requires var d := DeleteNode(r, v);
      (d.deleted <==> v in Elements(r)) && (d.missing <==> v !in Elements(r))
      && (!d.deleted ==> d.tree == r) && Elements(d.tree) == Elements(r) - {v} && Bst(d.tree)
    ensures var d := DeleteNode(Node(l, x, r), v);
      (d.deleted <==> v in Elements(Node(l, x, r))) && (d.missing <==> v !in Elements(Node(l, x, r)))
      && (!d.deleted ==> d.tree == Node(l, x, r))
      && Elements(d.tree) == Elements(Node(l, x, r)) - {v} && Bst(d.tree)
  {
    assert v !in Elements(l);
  }

  /** Replacing x by the least value m of the right subtree and deleting
      m there. */
  lemma DeleteTwoChildren(l: Tree, x: int, r: Tree, m: int, d: Deletion)
    requires Bst(Node(l, x, r)) && m in Elements(r) && forall y :: y in Elements(r) ==> m <= y
    requires !d.missing && Elements(d.tree) == Elements(r) - {m} && Bst(d.tree)
    ensures Elements(Node(l, m, d.tree)) == Elements(Node(l, x, r)) - {x} && Bst(Node(l, m, d.tree))
  {
    assert x < m;
    assert x !in Elements(l) && x !in Elements(r) && m !in Elements(l);
  }

  /** A record of the history (`BSTOperation`): the kind, the value and the
      tree as the handler found it. */
  datatype OperationKind = Insert | Delete | Search | Clear

  datatype BstOperation = BstOperation(operation: OperationKind, value: Option<int>, treeState: Tree)

  /** The messages the handlers put in the error banner. */
  datatype BstError = InvalidNumber | InvalidSearchNumber | InvalidDeleteNumber | AlreadyExists(value: int) | NotFound(value: int)

  datatype BstStatistics = BstStatistics(totalInsertions: nat, totalDeletions: nat, totalSearches: nat,
                                         maxDepth: nat, nodeCount: nat, operationCount: nat)

  /** `operations.filter(op => op.operation === kind).length`. */
  function CountKind(operations: seq<BstOperation>, kind: OperationKind): (c: nat)
    ensures c <= |operations|
  {
    if |operations| == 0 then 0
    else CountKind(operations[..|operations| - 1], kind) + (if operations[|operations| - 1].operation == kind then 1 else 0)
  }

  /** Appending an operation adds one to the count of its kind only. */
  lemma CountKindSnoc(operations: seq<BstOperation>, op: BstOperation, kind: OperationKind)
    ensures CountKind(operations + [op], kind) == CountKind(operations, kind) + (if op.operation == kind then 1 else 0)
  {
    assert (operations + [op])[..|operations|] == operations;
  }

  /** The statistics effect. */
  function Statistics(operations: seq<BstOperation>, root: Tree): (s: BstStatistics)
    ensures s.maxDepth <= s.nodeCount && s.operationCount == |operations|
    ensures s.totalInsertions + s.totalDeletions + s.totalSearches <= s.operationCount
  {
    DepthCount(root);
    KindsPartition(operations);
    BstStatistics(CountKind(operations, Insert), CountKind(operations, Delete), CountKind(operations, Search),
                  CalculateDepth(root), CountNodes(root), |operations|)
  }

  lemma {:induction false} KindsPartition(operations: seq<BstOperation>)
    ensures CountKind(operations, Insert) + CountKind(operations, Delete) + CountKind(operations, Search) <= |operations|
  {
    if |operations| > 0 {
      KindsPartition(operations[..|operations| - 1]);
    }
  }

  class BstVisualizer {
    var root: Tree
    var error: Option<BstError>
    var foundNode: Option<int>
    var operations: seq<BstOperation>

    /** The tree is a search tree. */
    ghost predicate Valid()
      reads this
    {
      Bst(root)
    }

    constructor ()
      ensures Valid() && root == Nil && error == None && foundNode == None && operations == []
    {
      root := Nil;
      error := None;
      foundNode := None;
      operations := [];
    }

    /** `handleInsert`: clears the banner and the found node; text that is
        not a number is rejected; a duplicate sets the error and leaves the
        tree as it was; otherwise the value is added and one insert entry,
        holding the old tree, is logged. */
    method HandleInsert(inputValue: string)
      requires Valid()
      modifies this
      ensures Valid() && foundNode == None
      ensures ParseDecimal(inputValue).None? ==>
        root == old(root) && operations == old(operations) && error == Some(InvalidNumber)
      ensures ParseDecimal(inputValue).Some? && ParseDecimal(inputValue).value in Elements(old(root)) ==>
        root == old(root) && operations == old(operations) && error == Some(AlreadyExists(ParseDecimal(inputValue).value))
      ensures ParseDecimal(inputValue).Some? && ParseDecimal(inputValue).value !in Elements(old(root)) ==>
        var v := ParseDecimal(inputValue).value;
        Elements(root) == Elements(old(root)) + {v} && CountNodes(root) == CountNodes(old(root)) + 1 && error == None
        && operations == old(operations) + [BstOperation(Insert, Some(v), old(root))]
    {
      error := None;
      foundNode := None;
      var parsed := ParseDecimal(inputValue);
      if parsed.None? {
        error := Some(InvalidNumber);
        return;
      }
      var value := parsed.value;
      var (newRoot, duplicate) := InsertNode(root, value);
      InsertNodeCorrect(root, value);
      if duplicate {
        error := Some(AlreadyExists(value));
      } else {
        operations := operations + [BstOperation(Insert, Some(value), root)];
      }
      root := newRoot;
    }

    /** `handleSearch`: clears the banner (not the found node); text that
        is not a number is rejected; otherwise the value is found exactly
        when it is in the tree, and one search entry is logged either way.
        Searching never changes the tree. */
    method HandleSearch(searchValue: string)
      requires Valid()
      modifies this`error, this`foundNode, this`operations
      ensures ParseDecimal(searchValue).None? ==>
        operations == old(operations) && error == Some(InvalidSearchNumber) && foundNode == old(foundNode)
      ensures ParseDecimal(searchValue).Some? ==>
        var v := ParseDecimal(searchValue).value;
        operations == old(operations) + [BstOperation(Search, Some(v), root)]
        && (v in Elements(root) ==> foundNode == Some(v) && error == None)
        && (v !in Elements(root) ==> foundNode == None && error == Some(NotFound(v)))
    {
      error := None;
      var parsed := ParseDecimal(searchValue);
      if parsed.None? {
        error := Some(InvalidSearchNumber);
        return;
      }
      var value := parsed.value;
      var found := SearchTree(root, value);
      SearchTreeCorrect(root, value);
      if found {
        foundNode := Some(value);
      } else {
        error := Some(NotFound(value));
        foundNode := None;
      }
      operations := operations + [BstOperation(Search, Some(value), root)];
    }

    /** `handleDelete`: clears the banner and the found node; text that is
        not a number is rejected; a missing value sets the not-found error
        and leaves the tree as it was; otherwise the value is removed and
        one delete entry, holding the old tree, is logged. */
    method HandleDelete(deleteValue: string)
      requires Valid()
      modifies this
      ensures Valid() && foundNode == None
      ensures ParseDecimal(deleteValue).None? ==>
        root == old(root) && operations == old(operations) && error == Some(InvalidDeleteNumber)
      ensures ParseDecimal(deleteValue).Some? && ParseDecimal(deleteValue).value !in Elements(old(root)) ==>
        root == old(root) && operations == old(operations) && error == Some(NotFound(ParseDecimal(deleteValue).value))
      ensures ParseDecimal(deleteValue).Some? && ParseDecimal(deleteValue).value in Elements(old(root)) ==>
        var v := ParseDecimal(deleteValue).value;
        Elements(root) == Elements(old(root)) - {v} && CountNodes(root) == CountNodes(old(root)) - 1 && error == None
        && operations == old(operations) + [BstOperation(Delete, Some(v), old(root))]
    {
      error := None;
      foundNode := None;
      var parsed := ParseDecimal(deleteValue);
      if parsed.None? {
        error := Some(InvalidDeleteNumber);
        return;
      }
      var value := parsed.value;
      var d := DeleteNode(root, value);
      DeleteNodeCorrect(root, value);
      if d.missing {
        error := Some(NotFound(value));
      }
      if d.deleted {
        operations := operations + [BstOperation(Delete, Some(value), root)];
      }
      root := d.tree;
    }

    /** `handleClear`: an empty tree, no banner and no found node, and one
        clear entry holding the old tree. */
    method HandleClear()
      requires Valid()
      modifies this
      ensures Valid() && root == Nil && error == None && foundNode == None
      ensures operations == old(operations) + [BstOperation(Clear, None, old(root))]
    {
      operations := operations + [BstOperation(Clear, None, root)];
      root := Nil;
      error := None;
      foundNode := None;
    }
  }

  /** The children of a node that `levelorder` enqueues: the non-empty
      ones, left first. */
  function Enqueued(c: Tree): seq<Tree>
    requires c.Node?
  {
    NonEmpty(c.left) + NonEmpty(c.right)
  }

  /** A subtree as a queue entry: none when it is empty. */
  function NonEmpty(t: Tree): seq<Tree> {
    if t.Node? then [t] else []
  }

  /** `levelorder`: a queue of subtrees, starting with the root; each
      node's value is listed when it leaves the queue and its children
      join the queue's end. Every value of the tree is listed once. */
  method LevelOrder(t: Tree) returns (result: seq<int>)
    ensures multiset(result) == multiset(InOrder(t))
    ensures |result| == CountNodes(t)
  {
    result := [];
    TraversalsAgree(t);
    if t.Nil? {
      return;
    }
    var queue := [t];
    PendingOne(t);
    while |queue| > 0
      invariant Listing(t, result, queue)
      decreases Weight(queue)
    {
      var current := queue[0];
      LevelStep(t, result, queue);
      result := result + [current.value];
      queue := queue[1..] + Enqueued(current);
    }
    assert Pending(queue) == multiset{} && Weight(queue) == 0;
  }

  /** The invariant of `LevelOrder`'s loop: the values listed so far and
      those of the queued subtrees make up the tree's values. */
  ghost predicate Listing(t: Tree, result: seq<int>, queue: seq<Tree>) {
    && Filled(queue)
    && multiset(result) + Pending(queue) == Values(t)
    && |result| + Weight(queue) == CountNodes(t)
  }

  /** Every queued subtree is a node. */
  ghost predicate Filled(queue: seq<Tree>) {
    forall k :: 0 <= k < |queue| ==> queue[k].Node?
  }

  /** The values still to be listed: those of the queued subtrees. */
  function Pending(queue: seq<Tree>): multiset<int> {
    if queue == [] then multiset{} else Values(queue[0]) + Pending(queue[1..])
  }

  /** The number of nodes in the queued subtrees. */
  function Weight(queue: seq<Tree>): nat {
    if queue == [] then 0 else CountNodes(queue[0]) + Weight(queue[1..])
  }

  lemma PendingOne(t: Tree)
    ensures Pending([t]) == Values(t) && Weight([t]) == CountNodes(t)
  {
    assert [t][1..] == [];
  }

  /** The loop invariant of `LevelOrder` survives one step. */
  lemma LevelStep(t: Tree, result: seq<int>, queue: seq<Tree>)
    requires |queue| > 0 && Listing(t, result, queue)
    ensures Listing(t, result + [queue[0].value], queue[1..] + Enqueued(queue[0]))
    ensures Weight(queue[1..] + Enqueued(queue[0])) < Weight(queue)
  {
    QueueStep(queue);
    assert multiset(result + [queue[0].value]) == multiset(result) + multiset{queue[0].value};
  }

  /** One step lists the front node's value and leaves the rest of the
      values, and one node fewer, pending. */
  lemma QueueStep(queue: seq<Tree>)
    requires |queue| > 0 && Filled(queue)
    ensures Filled(queue[1..] + Enqueued(queue[0]))
    ensures Pending(queue) == multiset{queue[0].value} + Pending(queue[1..] + Enqueued(queue[0]))
    ensures Weight(queue) == 1 + Weight(queue[1..] + Enqueued(queue[0]))
  {
    var c := queue[0];
    Concat(queue[1..], Enqueued(c));
    EnqueuedCounts(c);
  }

  /** The enqueued children hold the node's values other than its own. */
  lemma EnqueuedCounts(c: Tree)
    requires c.Node?
    ensures Filled(Enqueued(c))
    ensures Values(c) == multiset{c.value} + Pending(Enqueued(c))
    ensures CountNodes(c) == 1 + Weight(Enqueued(c))
  {
    EnqueuedValues(c);
    EnqueuedWeight(c);
  }

  lemma EnqueuedValues(c: Tree)
    requires c.Node?
    ensures Values(c) == multiset{c.value} + Pending(Enqueued(c))
  {
    ConcatPending(NonEmpty(c.left), NonEmpty(c.right));
    NonEmptyCounts(c.left);
    NonEmptyCounts(c.right);
  }

  lemma EnqueuedWeight(c: Tree)
    requires c.Node?
    ensures Filled(Enqueued(c))
    ensures CountNodes(c) == 1 + Weight(Enqueued(c))
  {
    ConcatWeight(NonEmpty(c.left), NonEmpty(c.right));
    NonEmptyCounts(c.left);
    NonEmptyCounts(c.right);
  }

  lemma NonEmptyCounts(t: Tree)
    ensures Filled(NonEmpty(t))
    ensures Pending(NonEmpty(t)) == Values(t) && Weight(NonEmpty(t)) == CountNodes(t)
  {
    if t.Node? {
      PendingOne(t);
    }
  }

  /** Pending values and weights add up over a concatenation. */
  lemma Concat(a: seq<Tree>, b: seq<Tree>)
    ensures Pending(a + b) == Pending(a) + Pending(b)
    ensures Weight(a + b) == Weight(a) + Weight(b)
    ensures Filled(a) && Filled(b) ==> Filled(a + b)
  {
    ConcatPending(a, b);
    ConcatWeight(a, b);
  }

  lemma {:induction false} ConcatPending(a: seq<Tree>, b: seq<Tree>)
    ensures Pending(a + b) == Pending(a) + Pending(b)
    decreases |a|
  {
    if a != [] {
      assert (a + b)[1..] == a[1..] + b;
      ConcatPending(a[1..], b);
    } else {
      assert a + b == b;
    }
  }

  lemma {:induction false} ConcatWeight(a: seq<Tree>, b: seq<Tree>)
    ensures Weight(a + b) == Weight(a) + Weight(b)
    decreases |a|
  {
    if a != [] {
      assert (a + b)[1..] == a[1..] + b;
      ConcatWeight(a[1..], b);
    } else {
      assert a + b == b;
    }
  }
}
