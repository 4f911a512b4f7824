/** The forest behind both union-find implementations of the app: parent
    pointers over the elements 0..n-1, joined by rank, so that every element
    that is not a root ranks strictly below its parent. The ranks bound the
    walk to the root; `bound` caps every rank. */
module DisjointSets {

  ghost predicate Forest(parent: seq<nat>, rank: seq<nat>, bound: nat) {
    |parent| == |rank|
    && (forall i :: 0 <= i < |parent| ==> parent[i] < |parent| && rank[i] <= bound)
    && (forall i :: 0 <= i < |parent| && parent[i] != i ==> rank[i] < rank[parent[i]])
  }

  /** The root reached from x by following parent pointers. */
  ghost function Root(parent: seq<nat>, rank: seq<nat>, bound: nat, x: nat): (r: nat)
    requires Forest(parent, rank, bound) && x < |parent|
    ensures r < |parent| && parent[r] == r
    ensures parent[x] != x ==> rank[x] < rank[r]
    decreases bound - rank[x]
  {
    if parent[x] == x then x else Root(parent, rank, bound, parent[x])
  }

  /** The roots: one per set. */
  ghost function Roots(parent: seq<nat>): set<nat> {
    set z | 0 <= z < |parent| && parent[z] == z
  }

  /** n singletons: every element its own parent, every rank 0. */
  lemma Singletons(parent: seq<nat>, rank: seq<nat>)
    requires |parent| == |rank| && forall i :: 0 <= i < |parent| ==> parent[i] == i && rank[i] == 0
    ensures Forest(parent, rank, 0)
    ensures forall z :: 0 <= z < |parent| ==> Root(parent, rank, 0, z) == z
    ensures forall z: nat :: z in Roots(parent) <==> z < |parent|
  {
    forall z: nat
      ensures z in Roots(parent) <==> z < |parent|
    {
      if z < |parent| {
        assert parent[z] == z;
      }
    }
  }

  /** parent' differs from parent only where an element now points straight
      at its root: what path compression does. */
  ghost predicate Redirected(parent: seq<nat>, rank: seq<nat>, bound: nat, parent': seq<nat>)
    requires Forest(parent, rank, bound)
  {
    |parent'| == |parent|
    && forall z :: 0 <= z < |parent| ==> parent'[z] == parent[z] || parent'[z] == Root(parent, rank, bound, z)
  }

  lemma RedirectedForest(parent: seq<nat>, rank: seq<nat>, bound: nat, parent': seq<nat>)
    requires Forest(parent, rank, bound) && Redirected(parent, rank, bound, parent')
    ensures Forest(parent', rank, bound)
  {
    forall i | 0 <= i < |parent'| && parent'[i] != i
      ensures rank[i] < rank[parent'[i]]
    {
      if parent'[i] != parent[i] {
        assert parent[i] != i;
      }
    }
  }

  lemma {:induction false} RedirectedRoot(parent: seq<nat>, rank: seq<nat>, bound: nat, parent': seq<nat>, z: nat)
    requires Forest(parent, rank, bound) && Redirected(parent, rank, bound, parent') && z < |parent|
    requires Forest(parent', rank, bound)
    ensures Root(parent', rank, bound, z) == Root(parent, rank, bound, z)
    decreases bound - rank[z]
  {
    var r := Root(parent, rank, bound, z);
    if parent'[z] != z {
      if parent'[z] == parent[z] {
        RedirectedRoot(parent, rank, bound, parent', parent[z]);
      } else {
        assert parent'[r] == r;
      }
    }
  }

  /** Pointing x straight at its root, after compressing the path above
      x, is still path compression. */
  lemma RedirectedExtend(parent: seq<nat>, rank: seq<nat>, bound: nat, parent': seq<nat>, x: nat, r: nat)
    requires Forest(parent, rank, bound) && Redirected(parent, rank, bound, parent')
    requires x < |parent| && parent[x] != x && r == Root(parent, rank, bound, parent[x])
    ensures Root(parent, rank, bound, x) == r
    ensures Redirected(parent, rank, bound, parent'[x := r])
  {
  }

  /** Path compression keeps the forest, every root and the set of roots. */
  lemma RedirectedRoots(parent: seq<nat>, rank: seq<nat>, bound: nat, parent': seq<nat>)
    requires Forest(parent, rank, bound) && Redirected(parent, rank, bound, parent')
    ensures Forest(parent', rank, bound)
    ensures forall z :: 0 <= z < |parent| ==> Root(parent', rank, bound, z) == Root(parent, rank, bound, z)
    ensures Roots(parent') == Roots(parent)
    ensures RootsOf(parent', rank, bound) == RootsOf(parent, rank, bound)
  {
    RedirectedForest(parent, rank, bound, parent');
    forall z | 0 <= z < |parent|
      ensures Root(parent', rank, bound, z) == Root(parent, rank, bound, z)
    {
      RedirectedRoot(parent, rank, bound, parent', z);
    }
  }

  /** The state after root loser is put under root winner, whose rank
      becomes k. */
  ghost predicate Linkable(parent: seq<nat>, rank: seq<nat>, bound: nat, loser: nat, winner: nat, k: nat, bound': nat) {
    Forest(parent, rank, bound) && loser < |parent| && winner < |parent| && loser != winner
    && parent[loser] == loser && parent[winner] == winner
    && rank[winner] <= k && rank[loser] < k && bound <= bound' && k <= bound'
  }

  lemma LinkForest(parent: seq<nat>, rank: seq<nat>, bound: nat, loser: nat, winner: nat, k: nat, bound': nat)
    requires Linkable(parent, rank, bound, loser, winner, k, bound')
    ensures Forest(parent[loser := winner], rank[winner := k], bound')
  {
    var p, r := parent[loser := winner], rank[winner := k];
    forall i | 0 <= i < |p| && p[i] != i
      ensures r[i] < r[p[i]]
    {
      if i != loser {
        assert parent[i] != i && i != winner;
      }
    }
  }

  lemma {:induction false} LinkRoot(parent: seq<nat>, rank: seq<nat>, bound: nat, loser: nat, winner: nat, k: nat, bound': nat, z: nat)
    requires Linkable(parent, rank, bound, loser, winner, k, bound') && z < |parent|
    requires Forest(parent[loser := winner], rank[winner := k], bound')
    ensures var r := Root(parent, rank, bound, z);
      Root(parent[loser := winner], rank[winner := k], bound', z) == if r == loser then winner else r
    decreases bound - rank[z]
  {
    var p, rk := parent[loser := winner], rank[winner := k];
    if parent[z] == z {
      if z == loser {
        assert p[winner] == winner;
        assert Root(p, rk, bound', winner) == winner;
      }
    } else {
      LinkRoot(parent, rank, bound, loser, winner, k, bound', parent[z]);
    }
  }

  /** Linking merges exactly the two sets of the two roots, under the
      winner, and the loser stops being a root. */
  lemma Link(parent: seq<nat>, rank: seq<nat>, bound: nat, loser: nat, winner: nat, k: nat, bound': nat)
    requires Linkable(parent, rank, bound, loser, winner, k, bound')
    ensures Forest(parent[loser := winner], rank[winner := k], bound')
    ensures forall z :: 0 <= z < |parent| ==>
      Root(parent[loser := winner], rank[winner := k], bound', z)
        == if Root(parent, rank, bound, z) == loser then winner else Root(parent, rank, bound, z)
    ensures Roots(parent[loser := winner]) == Roots(parent) - {loser}
  {
    LinkForest(parent, rank, bound, loser, winner, k, bound');
    forall z | 0 <= z < |parent|
      ensures Root(parent[loser := winner], rank[winner := k], bound', z)
        == if Root(parent, rank, bound, z) == loser then winner else Root(parent, rank, bound, z)
    {
      LinkRoot(parent, rank, bound, loser, winner, k, bound', z);
    }
  }

  /** The root of every element. */
  ghost function RootsOf(parent: seq<nat>, rank: seq<nat>, bound: nat): (rs: seq<nat>)
    requires Forest(parent, rank, bound)
    ensures |rs| == |parent| && forall z :: 0 <= z < |parent| ==> rs[z] == Root(parent, rank, bound, z)
  {
    seq(|parent|, z requires 0 <= z < |parent| => Root(parent, rank, bound, z))
  }

  /** A labelling with the classes of a and b merged under the label rep. */
  function Unite(s: seq<nat>, a: nat, b: nat, rep: nat): seq<nat>
    requires a < |s| && b < |s|
  {
    seq(|s|, z requires 0 <= z < |s| => if s[z] == s[a] || s[z] == s[b] then rep else s[z])
  }

  /** Two labellings that group the elements alike. */
  ghost predicate SameClasses(s: seq<nat>, t: seq<nat>) {
    |s| == |t| && forall z, w :: 0 <= z < |s| && 0 <= w < |s| ==> (s[z] == s[w] <==> t[z] == t[w])
  }

  /** Merging the same two classes, under either of their labels, keeps two
      labellings alike. */
  lemma UniteClasses(s: seq<nat>, t: seq<nat>, a: nat, b: nat, rs: nat, rt: nat)
    requires SameClasses(s, t) && a < |s| && b < |s|
    requires (rs == s[a] || rs == s[b]) && (rt == t[a] || rt == t[b])
    ensures SameClasses(Unite(s, a, b, rs), Unite(t, a, b, rt))
  {
    var s', t' := Unite(s, a, b, rs), Unite(t, a, b, rt);
    forall z, w | 0 <= z < |s| && 0 <= w < |s|
      ensures s'[z] == s'[w] <==> t'[z] == t'[w]
    {
      assert (s[z] == s[a] || s[z] == s[b]) <==> (t[z] == t[a] || t[z] == t[b]);
      assert (s[w] == s[a] || s[w] == s[b]) <==> (t[w] == t[a] || t[w] == t[b]);
    }
  }

  /** After linking two roots, the roots are the old roots with the two
      classes united under the winner. */
  lemma LinkRoots(parent: seq<nat>, rank: seq<nat>, bound: nat, loser: nat, winner: nat, k: nat, bound': nat)
    requires Linkable(parent, rank, bound, loser, winner, k, bound')
    ensures Forest(parent[loser := winner], rank[winner := k], bound')
    ensures RootsOf(parent[loser := winner], rank[winner := k], bound')
      == Unite(RootsOf(parent, rank, bound), loser, winner, winner)
    ensures Roots(parent[loser := winner]) == Roots(parent) - {loser}
  {
    Link(parent, rank, bound, loser, winner, k, bound');
  }

  /** Uniting by any two members of the same two classes gives the same
      labelling. */
  lemma UniteSame(s: seq<nat>, a: nat, b: nat, c: nat, d: nat, rep: nat)
    requires a < |s| && b < |s| && c < |s| && d < |s|
    requires (s[a] == s[c] && s[b] == s[d]) || (s[a] == s[d] && s[b] == s[c])
    ensures Unite(s, a, b, rep) == Unite(s, c, d, rep)
  {
  }

  /** The labels in use: one per class. */
  function Classes(s: seq<nat>): set<nat> {
    set z | 0 <= z < |s| :: s[z]
  }

  /** Uniting two different classes under the label of the first removes
      exactly the label of the second. */
  lemma UniteCount(s: seq<nat>, a: nat, b: nat)
    requires a < |s| && b < |s| && s[a] != s[b]
    ensures Classes(Unite(s, a, b, s[a])) == Classes(s) - {s[b]}
    ensures |Classes(Unite(s, a, b, s[a]))| == |Classes(s)| - 1
  {
    var t := Unite(s, a, b, s[a]);
    forall v | v in Classes(s) - {s[b]}
      ensures v in Classes(t)
    {
      var z :| 0 <= z < |s| && s[z] == v;
      if s[z] == s[a] {
        assert t[a] == v;
      } else {
        assert t[z] == v;
      }
    }
    forall v | v in Classes(t)
      ensures v in Classes(s) - {s[b]}
    {
      var z :| 0 <= z < |t| && t[z] == v;
      if s[z] == s[a] || s[z] == s[b] {
        assert v == s[a];
      } else {
        assert v == s[z];
      }
    }
    assert s[b] in Classes(s);
  }

  /** Uniting two different classes, under the label of either, leaves
      one class fewer. */
  lemma UniteCountEither(s: seq<nat>, a: nat, b: nat, rep: nat)
    requires a < |s| && b < |s| && s[a] != s[b] && (rep == s[a] || rep == s[b])
    ensures |Classes(Unite(s, a, b, rep))| == |Classes(s)| - 1
  {
    if rep == s[a] {
      UniteCount(s, a, b);
    } else {
      UniteSame(s, a, b, b, a, rep);
      UniteCount(s, b, a);
    }
  }

  /** Uniting never separates two elements of one class. */
  lemma UniteCoarsens(s: seq<nat>, a: nat, b: nat, rep: nat, u: nat, v: nat)
    requires a < |s| && b < |s| && u < |s| && v < |s| && s[u] == s[v]
    ensures Unite(s, a, b, rep)[u] == Unite(s, a, b, rep)[v]
  {
  }

  /** rx or ry, whichever has the higher rank; rx on a tie. */
  function Winner(rank: seq<nat>, rx: nat, ry: nat): nat
    requires rx < |rank| && ry < |rank|
  {
    if rank[rx] < rank[ry] then ry else rx
  }

  /** The ranks after linking roots rx and ry: on a tie the rank of rx
      grows by one, otherwise nothing changes. */
  function Ranked(rank: seq<nat>, rx: nat, ry: nat): seq<nat>
    requires rx < |rank| && ry < |rank|
  {
    if rank[rx] == rank[ry] then rank[rx := rank[rx] + 1] else rank
  }

  predicate IsIdentity(s: seq<nat>, n: nat) {
    |s| == n && forall z :: 0 <= z < n ==> s[z] == z
  }

  /** n singletons make n classes. */
  lemma {:induction false} IdentityClasses(s: seq<nat>)
    requires IsIdentity(s, |s|)
    ensures |Classes(s)| == |s|
  {
    if |s| > 0 {
      var k := |s| - 1;
      var init := s[..k];
      IdentityClasses(init);
      assert Classes(s) == Classes(init) + {k} by {
        forall v | v in Classes(s)
          ensures v in Classes(init) + {k}
        {
          var z :| 0 <= z < |s| && s[z] == v;
          if z < k {
            assert init[z] == v;
          }
        }
        assert s[k] == k;
      }
      assert k !in Classes(init);
    }
  }
}
