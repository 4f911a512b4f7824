/** The union-find page: the elements 0..n-1 are nodes carrying a parent, a
    rank and an isRoot flag. find walks up to the root, collecting the path,
    and then points the whole path at the root; union finds both roots and
    joins them by rank; getSets lists the sets, one per root. */
module UnionFindPage {
  import opened Common
  import opened DisjointSets

  /** How a union request ends: rejected input, two elements already in one
      set (with its root), or a new parent for the root of the other set. */
  datatype UnionOutcome = Invalid | SameSet(root: nat) | United(newParent: nat, newChild: nat)

  /** The typed text is a number naming one of the n elements. The page
      reads its plain-text boxes with parseInt and no radix, so "0x2"
      names element 2 and "0x" is NaN. */
  predicate ValidIndex(t: string, n: nat) {
    ParseIntAuto(t).Some? && 0 <= ParseIntAuto(t).value < n
  }

  // ---------------------------------------------------------------------
  // The sets as getSets lists them (lines 193-203)

  /** The elements below k labelled r, ascending. */
  function Members(labels: seq<nat>, r: nat, k: nat): (m: seq<nat>)
    requires k <= |labels|
    ensures forall z :: z in m ==> z < k && labels[z] == r
    ensures forall i, j :: 0 <= i < j < |m| ==> m[i] < m[j]
  {
    if k == 0 then []
    else
      var m := Members(labels, r, k - 1);
      assert forall i :: 0 <= i < |m| ==> m[i] in m;
      m + (if labels[k - 1] == r then [k - 1] else [])
  }

  /** Every element below k labelled r is listed. */
  lemma {:induction false} MembersComplete(labels: seq<nat>, r: nat, k: nat, z: nat)
    requires k <= |labels| && z < k && labels[z] == r
    ensures z in Members(labels, r, k)
  {
    if z < k - 1 {
      MembersComplete(labels, r, k - 1, z);
    }
  }

  /** A label is in use exactly when some element carries it. */
  lemma MembersInUse(labels: seq<nat>, r: nat)
    ensures Members(labels, r, |labels|) != [] <==> r in Classes(labels)
  {
    var m := Members(labels, r, |labels|);
    if m != [] {
      assert m[0] in m;
    }
    if r in Classes(labels) {
      var z :| 0 <= z < |labels| && labels[z] == r;
      MembersComplete(labels, r, |labels|, z);
    }
  }

  /** The labels below k that some element carries, ascending. */
  function Keys(labels: seq<nat>, k: nat): (ks: seq<nat>)
    ensures forall r :: r in ks <==> r < k && r in Classes(labels)
    ensures forall i, j :: 0 <= i < j < |ks| ==> ks[i] < ks[j]
  {
    if k == 0 then []
    else
      var ks := Keys(labels, k - 1);
      assert forall i :: 0 <= i < |ks| ==> ks[i] in ks;
      ks + (if k - 1 in Classes(labels) then [k - 1] else [])
  }

  /** The labels in use below k. */
  ghost function InUseBelow(labels: seq<nat>, k: nat): (u: set<nat>)
    ensures forall r :: r in u ==> r < k
  {
    if k == 0 then {} else InUseBelow(labels, k - 1) + (if k - 1 in Classes(labels) then {k - 1} else {})
  }

  lemma {:induction false} InUseBelowClasses(labels: seq<nat>, k: nat)
    ensures forall r :: r in InUseBelow(labels, k) <==> r < k && r in Classes(labels)
  {
    if k > 0 {
      InUseBelowClasses(labels, k - 1);
    }
  }

  /** There are as many keys below k as labels in use below k. */
  lemma {:induction false} KeysCount(labels: seq<nat>, k: nat)
    ensures |Keys(labels, k)| == |InUseBelow(labels, k)|
  {
    if k > 0 {
      KeysCount(labels, k - 1);
      KeysStep(labels, k);
      InUseStep(labels, k);
    }
  }

  lemma KeysStep(labels: seq<nat>, k: nat)
    requires k > 0
    ensures |Keys(labels, k)| == |Keys(labels, k - 1)| + if k - 1 in Classes(labels) then 1 else 0
  {
  }

  lemma InUseStep(labels: seq<nat>, k: nat)
    requires k > 0
    ensures |InUseBelow(labels, k)| == |InUseBelow(labels, k - 1)| + if k - 1 in Classes(labels) then 1 else 0
  {
    assert k - 1 !in InUseBelow(labels, k - 1);
  }

  /** The sets of each label in ks, in that order. */
  function Listed(labels: seq<nat>, ks: seq<nat>): seq<seq<nat>> {
    seq(|ks|, g requires 0 <= g < |ks| => Members(labels, ks[g], |labels|))
  }

  /** The sets: one per label in use, by ascending label, each listing its
      elements in ascending order. */
  function Partition(labels: seq<nat>): seq<seq<nat>> {
    Listed(labels, Keys(labels, |labels|))
  }

  lemma PartitionAt(labels: seq<nat>)
    ensures |Partition(labels)| == |Keys(labels, |labels|)|
    ensures forall g :: 0 <= g < |Partition(labels)| ==>
      Partition(labels)[g] == Members(labels, Keys(labels, |labels|)[g], |labels|)
  {
  }

  /** The position, among the listed sets, of the set holding element z. */
  function SetIndex(labels: seq<nat>, z: nat): int
    requires z < |labels|
  {
    IndexOf(Keys(labels, |labels|), labels[z])
  }

  /** When every label names an element, each element lies in exactly one
      listed set: the one at its SetIndex. */
  lemma PartitionExact(labels: seq<nat>)
    requires forall z :: 0 <= z < |labels| ==> labels[z] < |labels|
    ensures var p := Partition(labels);
      forall z :: 0 <= z < |labels| ==> 0 <= SetIndex(labels, z) < |p| && z in p[SetIndex(labels, z)]
    ensures var p := Partition(labels);
      forall g, z :: 0 <= g < |p| && z in p[g] ==> 0 <= z < |labels| && g == SetIndex(labels, z)
  {
    var n := |labels|;
    var ks := Keys(labels, n);
    PartitionAt(labels);
    forall z | 0 <= z < n
      ensures 0 <= SetIndex(labels, z) < |ks| && z in Members(labels, ks[SetIndex(labels, z)], n)
    {
      assert labels[z] in Classes(labels);
      MembersComplete(labels, labels[z], n, z);
    }
    forall g, z | 0 <= g < |ks| && z in Members(labels, ks[g], n)
      ensures 0 <= z < n && g == SetIndex(labels, z)
    {
      var i := SetIndex(labels, z);
      assert ks[i] == ks[g];
    }
  }

  /** When every label names an element, each listed set is non-empty and
      there are as many sets as labels in use. */
  lemma PartitionCount(labels: seq<nat>)
    requires forall z :: 0 <= z < |labels| ==> labels[z] < |labels|
    ensures forall g :: 0 <= g < |Partition(labels)| ==> Partition(labels)[g] != []
    ensures |Partition(labels)| == |Classes(labels)|
  {
    var n := |labels|;
    var ks := Keys(labels, n);
    PartitionAt(labels);
    KeysCount(labels, n);
    InUseBelowClasses(labels, n);
    assert InUseBelow(labels, n) == Classes(labels);
    forall g | 0 <= g < |ks|
      ensures Members(labels, ks[g], n) != []
    {
      MembersInUse(labels, ks[g]);
    }
  }

  /** The buckets getSets fills from the first k elements: each label
      seen so far maps to its elements, in order. */
  function Buckets(labels: seq<nat>, k: nat): map<nat, seq<nat>>
    requires k <= |labels|
  {
    if k == 0 then map[]
    else
      var b := Buckets(labels, k - 1);
      Bucketed(b, labels[k - 1], k - 1)
  }

  /** Adds z at the end of the bucket of r, opening it when missing. */
  function Bucketed(b: map<nat, seq<nat>>, r: nat, z: nat): (b': map<nat, seq<nat>>)
    ensures b'.Keys == b.Keys + {r}
    ensures b'[r] == (if r in b then b[r] else []) + [z]
    ensures forall q :: q in b && q != r ==> b'[q] == b[q]
  {
    var bucket := if r in b then b[r] else [];
    b[r := bucket + [z]]
  }

  lemma {:induction false} BucketsMembers(labels: seq<nat>, k: nat)
    requires k <= |labels|
    ensures forall r :: r in Buckets(labels, k) <==> Members(labels, r, k) != []
    ensures forall r :: r in Buckets(labels, k) ==> Buckets(labels, k)[r] == Members(labels, r, k)
  {
    if k > 0 {
      BucketsMembers(labels, k - 1);

    }
  }

  /** The buckets' contents by ascending key, as JavaScript lists the
      integer keys of an object. */
  method Values(ghost labels: seq<nat>, buckets: map<nat, seq<nat>>, n: nat) returns (sets: seq<seq<nat>>)
    requires n == |labels| && buckets == Buckets(labels, n)
    ensures sets == Partition(labels)
  {
    sets := [];
    for r := 0 to n
      invariant sets == Listed(labels, Keys(labels, r))
    {
      ValuesStep(labels, buckets, r);
      if r in buckets {
        sets := sets + [buckets[r]];
      }
    }
  }

  /** Label r is listed next exactly when it has a bucket, which holds its set. */
  lemma ValuesStep(labels: seq<nat>, buckets: map<nat, seq<nat>>, r: nat)
    requires r < |labels| && buckets == Buckets(labels, |labels|)
    ensures Listed(labels, Keys(labels, r + 1)) ==
      if r in buckets then Listed(labels, Keys(labels, r)) + [buckets[r]] else Listed(labels, Keys(labels, r))
  {
    BucketsMembers(labels, |labels|);
    MembersInUse(labels, r);
    ListedAppend(labels, Keys(labels, r), r);
  }

  lemma ListedAppend(labels: seq<nat>, ks: seq<nat>, r: nat)
    ensures Listed(labels, ks + [r]) == Listed(labels, ks) + [Members(labels, r, |labels|)]
  {
  }

  lemma {:induction false} IdentityMembers(labels: seq<nat>, r: nat, k: nat)
    requires IsIdentity(labels, |labels|) && k <= |labels|
    ensures Members(labels, r, k) == if r < k then [r] else []
  {
    if k > 0 {
      IdentityMembers(labels, r, k - 1);
    }
  }

  lemma {:induction false} IdentityKeys(labels: seq<nat>, k: nat)
    requires IsIdentity(labels, |labels|) && k <= |labels|
    ensures Keys(labels, k) == seq(k, i => i)
  {
    if k > 0 {
      IdentityKeys(labels, k - 1);
      assert labels[k - 1] == k - 1;
    }
  }

  /** n singletons are listed as [0], [1], ..., [n-1]: what the page shows
      right after initialization. */
  lemma IdentityPartition(labels: seq<nat>)
    requires IsIdentity(labels, |labels|)
    ensures Partition(labels) == seq(|labels|, i => [i])
  {
    IdentityKeys(labels, |labels|);
    forall g | 0 <= g < |labels|
      ensures Partition(labels)[g] == [g]
    {
      IdentityMembers(labels, g, |labels|);
    }
  }

  // ---------------------------------------------------------------------
  // The nodes and their operations

  /** A path collected by find: each element before the last is not a root
      and is followed by its parent. */
  ghost predicate Walk(parent: seq<nat>, p: seq<nat>) {
    |p| > 0
    && (forall i :: 0 <= i < |p| ==> p[i] < |parent|)
    && (forall i :: 0 <= i < |p| - 1 ==> parent[p[i]] != p[i] && parent[p[i]] == p[i + 1])
  }

  /** Every element of a walk ending at a root has that root. */
  lemma WalkRoot(parent: seq<nat>, rank: seq<nat>, bound: nat, path: seq<nat>)
    requires Forest(parent, rank, bound) && Walk(parent, path) && parent[path[|path| - 1]] == path[|path| - 1]
    ensures forall i :: 0 <= i < |path| ==> Root(parent, rank, bound, path[i]) == path[|path| - 1]
  {
    var k := |path| - 1;
    var i := k;
    while i > 0
      invariant 0 <= i <= k
      invariant forall j :: i <= j <= k ==> Root(parent, rank, bound, path[j]) == path[k]
    {
      i := i - 1;
      assert Root(parent, rank, bound, path[i]) == Root(parent, rank, bound, path[i + 1]);
    }
  }

  /** The parents and root flags after pointing every element of path but
      the last at that last element, and marking it a root. */
  method PointAt(parent: seq<nat>, isRoot: seq<bool>, path: seq<nat>, root: nat) returns (p: seq<nat>, flags: seq<bool>)
    requires |isRoot| == |parent| && |path| > 0 && path[|path| - 1] == root && root < |parent|
    requires forall i :: 0 <= i < |path| ==> path[i] < |parent|
    ensures |p| == |parent| && |flags| == |parent|
    ensures forall z :: 0 <= z < |p| ==> p[z] == if z in path[..|path| - 1] then root else parent[z]
    ensures forall z :: 0 <= z < |p| ==>
      flags[z] == if z == root then true else if z in path[..|path| - 1] then false else isRoot[z]
  {
    p, flags := parent, isRoot;
    for i := 0 to |path| - 1
      invariant |p| == |parent| && |flags| == |parent|
      invariant forall z :: 0 <= z < |p| ==> p[z] == if z in path[..i] then root else parent[z]
      invariant forall z :: 0 <= z < |p| ==> flags[z] == if z in path[..i] then false else isRoot[z]
    {
      assert path[..i + 1] == path[..i] + [path[i]];
      p := p[path[i] := root];
      flags := flags[path[i] := false];
    }
    flags := flags[root := true];
  }

  /** Pointing a walk at the root it ends in only redirects elements to their root. */
  lemma PointedRedirects(parent: seq<nat>, rank: seq<nat>, bound: nat, path: seq<nat>, p: seq<nat>)
    requires Forest(parent, rank, bound) && Walk(parent, path)
    requires parent[path[|path| - 1]] == path[|path| - 1] && |p| == |parent|
    requires forall z :: 0 <= z < |p| ==> p[z] == if z in path[..|path| - 1] then path[|path| - 1] else parent[z]
    ensures Redirected(parent, rank, bound, p)
    ensures forall z :: 0 <= z < |p| ==> p[z] == if z in path then path[|path| - 1] else parent[z]
  {
    var root := path[|path| - 1];
    WalkRoot(parent, rank, bound, path);
    assert path == path[..|path| - 1] + [root];
    forall z | 0 <= z < |p|
      ensures p[z] == parent[z] || p[z] == Root(parent, rank, bound, z)
    {
      if z in path {
        var i :| 0 <= i < |path| && path[i] == z;
      }
    }
  }

  /** Pointing a walk at its root keeps a forest whose root flags are
      right, and every element's root. */
  lemma Pointed(parent: seq<nat>, rank: seq<nat>, bound: nat, isRoot: seq<bool>, path: seq<nat>, p: seq<nat>, flags: seq<bool>)
    requires Forest(parent, rank, bound) && Walk(parent, path) && |isRoot| == |parent|
    requires forall i :: 0 <= i < |parent| ==> (isRoot[i] <==> parent[i] == i)
    requires parent[path[|path| - 1]] == path[|path| - 1] && |p| == |parent| && |flags| == |parent|
    requires forall z :: 0 <= z < |p| ==> p[z] == if z in path[..|path| - 1] then path[|path| - 1] else parent[z]
    requires forall z :: 0 <= z < |flags| ==>
      flags[z] == if z == path[|path| - 1] then true else if z in path[..|path| - 1] then false else isRoot[z]
    ensures Forest(p, rank, bound) && flags == isRoot
    ensures forall i :: 0 <= i < |p| ==> (flags[i] <==> p[i] == i)
    ensures forall z :: 0 <= z < |p| ==> p[z] == if z in path then path[|path| - 1] else parent[z]
    ensures RootsOf(p, rank, bound) == RootsOf(parent, rank, bound)
  {
    PointedRedirects(parent, rank, bound, path, p);
    PointedFlags(parent, isRoot, path, flags);
    RedirectedRoots(parent, rank, bound, p);
    assert Roots(p) == Roots(parent);
    forall i | 0 <= i < |p|
      ensures flags[i] <==> p[i] == i
    {
      assert i in Roots(p) <==> i in Roots(parent);
    }
  }

  /** The elements of a walk before its end are not roots, so their flags
      were already clear and the end's flag already set. */
  lemma PointedFlags(parent: seq<nat>, isRoot: seq<bool>, path: seq<nat>, flags: seq<bool>)
    requires Walk(parent, path) && |isRoot| == |parent| && |flags| == |parent|
    requires parent[path[|path| - 1]] == path[|path| - 1]
    requires forall i :: 0 <= i < |parent| ==> (isRoot[i] <==> parent[i] == i)
    requires forall z :: 0 <= z < |flags| ==>
      flags[z] == if z == path[|path| - 1] then true else if z in path[..|path| - 1] then false else isRoot[z]
    ensures flags == isRoot
  {
    forall z | 0 <= z < |flags|
      ensures flags[z] == isRoot[z]
    {
      if z in path[..|path| - 1] {
        var i :| 0 <= i < |path| - 1 && path[i] == z;
      }
    }
  }

  class DisjointSetUnion {
    var parent: seq<nat>
    var rank: seq<nat>
    var isRoot: seq<bool>
    /** A cap on every rank: it bounds the walk to a root. */
    ghost var bound: nat

    /** A forest joined by rank, with isRoot marking exactly the roots. */
    ghost predicate Valid()
      reads this
    {
      Forest(parent, rank, bound) && |isRoot| == |parent|
      && forall i :: 0 <= i < |parent| ==> (isRoot[i] <==> parent[i] == i)
    }

    /** The root of every element: equal labels mean one set. */
    ghost function Labels(): seq<nat>
      reads this
      requires Valid()
    {
      RootsOf(parent, rank, bound)
    }

    /** count nodes, each its own parent with rank 0, listed as count
        singleton sets. */
    constructor (count: nat)
      ensures Valid() && |parent| == count
      ensures forall i :: 0 <= i < count ==> parent[i] == i && rank[i] == 0 && isRoot[i]
      ensures Partition(Labels()) == seq(count, i => [i])
    {
      parent := seq(count, i => i);
      rank := seq(count, i => 0);
      isRoot := seq(count, i => true);
      bound := 0;
      new;
      Singletons(parent, rank);
      IdentityPartition(Labels());
    }

    /** The root of x, walking up without changing anything. */
    method FindRoot(x: nat) returns (r: nat)
      requires Valid() && x < |parent|
      ensures r == Labels()[x]
    {
      r := x;
      while parent[r] != r
        invariant r < |parent| && Root(parent, rank, bound, r) == Root(parent, rank, bound, x)
        decreases bound - rank[r]
      {
        r := parent[r];
      }
    }

    /** The sets, listed by ascending root. */
    method GetSets() returns (sets: seq<seq<nat>>)
      requires Valid()
      ensures sets == Partition(Labels())
    {
      var buckets := FillBuckets();
      sets := Values(Labels(), buckets, |parent|);
    }

    /** Each element added, in order, to the bucket of its root. */
    method FillBuckets() returns (buckets: map<nat, seq<nat>>)
      requires Valid()
      ensures buckets == Buckets(Labels(), |parent|)
    {
      ghost var labels := Labels();
      var n := |parent|;
      buckets := map[];
      for i := 0 to n
        invariant buckets == Buckets(labels, i)
      {
        var root := FindRoot(i);
        buckets := Bucketed(buckets, root, i);
      }
    }

    /** Points every element of a found path at its root. */
    method Compress(path: seq<nat>, root: nat)
      requires Valid() && Walk(parent, path) && path[|path| - 1] == root && parent[root] == root
      modifies this
      ensures Valid() && rank == old(rank) && bound == old(bound) && isRoot == old(isRoot)
      ensures |parent| == old(|parent|)
      ensures forall z :: 0 <= z < |parent| ==> parent[z] == if z in path then root else old(parent)[z]
      ensures Labels() == old(Labels())
    {
      var p, flags := PointAt(parent, isRoot, path, root);
      Pointed(parent, rank, bound, isRoot, path, p, flags);
      parent, isRoot := p, flags;
    }

    /** The root of x, with the path walked from x to it; afterwards every
        element of the path points straight at the root, the other parents,
        the ranks, the root flags and every element's set are unchanged. */
    method Find(x: nat) returns (root: nat, path: seq<nat>)
      requires Valid() && x < |parent|
      modifies this
      ensures Valid() && rank == old(rank) && bound == old(bound) && isRoot == old(isRoot)
      ensures Walk(old(parent), path) && path[0] == x && path[|path| - 1] == root
      ensures root == old(Labels())[x] && forall i :: 0 <= i < |path| ==> old(Labels())[path[i]] == root
      ensures |parent| == old(|parent|)
      ensures forall z :: 0 <= z < |parent| ==> parent[z] == if z in path then root else old(parent)[z]
      ensures Labels() == old(Labels())
    {
      path := [];
      var current: nat := x;
      while parent[current] != current
        invariant current < |parent| && Walk(parent, path + [current]) && (path + [current])[0] == x
        decreases bound - rank[current]
      {
        path := path + [current];
        current := parent[current];
      }
      path := path + [current];
      root := current;
      WalkRoot(parent, rank, bound, path);
      if |path| > 1 {
        Compress(path, root);
      }
    }

    /** The roots of x and y, found one after the other. */
    method FindRoots(x: nat, y: nat) returns (rootX: nat, rootY: nat)
      requires Valid() && x < |parent| && y < |parent|
      modifies this
      ensures Valid() && |parent| == old(|parent|) && rank == old(rank) && Labels() == old(Labels())
      ensures forall z :: 0 <= z < |parent| ==> parent[z] == old(parent)[z] || parent[z] == old(Labels())[z]
      ensures rootX == Labels()[x] && rootY == Labels()[y]
      ensures rootX < |parent| && parent[rootX] == rootX && rootY < |parent| && parent[rootY] == rootY
    {
      ghost var labels, parent0 := Labels(), parent;
      var pathX, pathY;
      rootX, pathX := Find(x);
      rootY, pathY := Find(y);
    }

    /** Puts root loser under root winner, whose rank becomes k. */
    method Link(loser: nat, winner: nat, k: nat)
      requires Valid() && Linkable(parent, rank, bound, loser, winner, k, if k > bound then k else bound)
      modifies this
      ensures Valid() && parent == old(parent)[loser := winner] && rank == old(rank)[winner := k]
      ensures isRoot == old(isRoot)[loser := false][winner := true]
      ensures Labels() == Unite(old(Labels()), loser, winner, winner)
    {
      ghost var bound' := if k > bound then k else bound;
      LinkRoots(parent, rank, bound, loser, winner, k, bound');
      var flags := isRoot[loser := false][winner := true];
      assert forall i :: 0 <= i < |flags| ==> (flags[i] <==> parent[loser := winner][i] == i);
      rank, parent, isRoot, bound := rank[winner := k], parent[loser := winner], flags, bound';
    }

    /** Joins roots rx and ry by rank: the lower rank goes under the higher;
        on a tie ry goes under rx, whose rank grows by one. */
    method LinkByRank(rx: nat, ry: nat) returns (newParent: nat, newChild: nat)
      requires Valid() && rx < |parent| && ry < |parent| && rx != ry && parent[rx] == rx && parent[ry] == ry
      modifies this
      ensures Valid() && |parent| == old(|parent|)
      ensures newParent == Winner(old(rank), rx, ry) && newChild == (if newParent == rx then ry else rx)
      ensures parent[newChild] == newParent
      ensures Labels() == old(Unite(Labels(), rx, ry, Winner(rank, rx, ry)))
      ensures rank == Ranked(old(rank), rx, ry)
    {
      ghost var labels := Labels();
      assert labels[rx] == rx && labels[ry] == ry;
      if rank[rx] < rank[ry] {
        newParent, newChild := ry, rx;
        Link(rx, ry, rank[ry]);
        UniteSame(labels, rx, ry, rx, ry, ry);
      } else if rank[rx] > rank[ry] {
        newParent, newChild := rx, ry;
        Link(ry, rx, rank[rx]);
        UniteSame(labels, ry, rx, rx, ry, rx);
      } else {
        newParent, newChild := rx, ry;
        Link(ry, rx, rank[rx] + 1);
        UniteSame(labels, ry, rx, rx, ry, rx);
      }
    }

    /** Joins the sets of x and y. When they already share a root nothing
        but path compression happens; otherwise the two sets become one
        under the root of higher rank (the root of x on a tie, whose rank
        grows by one). */
    method Union(x: nat, y: nat) returns (outcome: UnionOutcome)
      requires Valid() && x < |parent| && y < |parent|
      modifies this
      ensures Valid() && |parent| == old(|parent|)
      ensures !outcome.Invalid?
      ensures outcome.SameSet? <==> old(Labels()[x] == Labels()[y])
      ensures outcome.SameSet? ==> (outcome.root == old(Labels()[x]) && Labels() == old(Labels()) && rank == old(rank)
        && forall z :: 0 <= z < |parent| ==> parent[z] == old(parent)[z] || parent[z] == old(Labels())[z])
      ensures outcome.United? ==> (outcome.newParent == old(Winner(rank, Labels()[x], Labels()[y]))
        && outcome.newChild == old(if outcome.newParent == Labels()[x] then Labels()[y] else Labels()[x])
        && parent[outcome.newChild] == outcome.newParent
        && Labels() == old(Unite(Labels(), x, y, Winner(rank, Labels()[x], Labels()[y])))
        && rank == Ranked(old(rank), old(Labels()[x]), old(Labels()[y])))
    {
      ghost var labels, rank0 := Labels(), rank;
      var rootX, rootY := FindRoots(x, y);
      if rootX == rootY {
        return SameSet(rootX);
      }
      assert labels[rootX] == rootX && labels[rootY] == rootY;
      var newParent, newChild := LinkByRank(rootX, rootY);
      UniteSame(labels, rootX, rootY, x, y, Winner(rank0, rootX, rootY));
      outcome := United(newParent, newChild);
    }
  }

  /** The page's statistics: the number of sets shown and of operations
      performed. They live apart from the nodes, as in the page. */
  class Stats {
    var totalSets: nat
    var operations: nat

    /** After initialization: count singleton sets, no operations. */
    constructor (count: nat)
      ensures totalSets == count && operations == 0
    {
      totalSets := count;
      operations := 0;
    }
  }

  /** The union request of the page (lines 215-236): both texts must name
      elements; a valid request counts as one operation and refreshes the
      number of sets, which drops by one exactly when two sets were joined. */
  method PerformUnion(dsu: DisjointSetUnion, stats: Stats, xText: string, yText: string) returns (outcome: UnionOutcome)
    requires dsu.Valid()
    modifies dsu, stats
    ensures dsu.Valid() && |dsu.parent| == old(|dsu.parent|)
    ensures outcome.Invalid? <==> !(ValidIndex(xText, |dsu.parent|) && ValidIndex(yText, |dsu.parent|))
    ensures outcome.Invalid? ==> unchanged(dsu, stats)
    ensures !outcome.Invalid? ==> stats.operations == old(stats.operations) + 1 && stats.totalSets == |Classes(dsu.Labels())|
    ensures outcome.SameSet? ==> dsu.Labels() == old(dsu.Labels())
    ensures outcome.United? ==> |Classes(dsu.Labels())| == |Classes(old(dsu.Labels()))| - 1
  {
    var n := |dsu.parent|;
    if !(ValidIndex(xText, n) && ValidIndex(yText, n)) {
      return Invalid;
    }
    var x, y: nat := ParseIntAuto(xText).value, ParseIntAuto(yText).value;
    ghost var labels, rank0 := dsu.Labels(), dsu.rank;
    outcome := dsu.Union(x, y);
    if outcome.United? {
      UniteCountEither(labels, x, y, Winner(rank0, labels[x], labels[y]));
    }
    var sets := dsu.GetSets();
    PartitionCount(dsu.Labels());
    stats.operations := stats.operations + 1;
    stats.totalSets := |sets|;
  }

  /** The find request of the page (lines 239-263): the text must name an
      element; a valid request counts as one operation and reports its
      root. */
  method PerformFind(dsu: DisjointSetUnion, stats: Stats, text: string) returns (found: Option<nat>)
    requires dsu.Valid()
    modifies dsu, stats
    ensures dsu.Valid() && |dsu.parent| == old(|dsu.parent|)
    ensures found.None? <==> !ValidIndex(text, |dsu.parent|)
    ensures found.None? ==> unchanged(dsu, stats)
    ensures found.Some? ==> (found.value == old(dsu.Labels())[ParseIntAuto(text).value]
      && dsu.Labels() == old(dsu.Labels()) && stats.operations == old(stats.operations) + 1
      && stats.totalSets == old(stats.totalSets))
  {
    if !ValidIndex(text, |dsu.parent|) {
      return None;
    }
    var root, path := dsu.Find(ParseIntAuto(text).value);
    stats.operations := stats.operations + 1;
    found := Some(root);
  }

}
