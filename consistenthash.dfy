/** The consistent-hashing page: servers and keys hashed onto a ring of
    360 degrees, each server spread over a few virtual nodes, and each
    key assigned to the server of the first virtual node at or after
    its angle, wrapping around to the first. */
module ConsistentHashingPage {
  import opened Common
  import opened StringHash

  /** The display colour is left out. */
  datatype Server = Server(id: string, name: string, angle: nat)

  datatype VirtualNode = VirtualNode(serverId: string, nodeId: string, angle: nat)

  datatype Key = Key(id: string, value: string, angle: nat, assignedServer: string)

  datatype Stage = Setup | AddServerStage | RemoveServerStage | AddKeyStage | RemoveKeyStage

  /** A recorded step without its description. */
  datatype RingStep = RingStep(servers: seq<Server>, virtualNodes: seq<VirtualNode>, keys: seq<Key>,
                               highlightedElements: seq<string>, stage: Stage)

  // ---------------------------------------------------------------------
  // Hashing onto the ring

  /** `hash`: the 32-bit string hash as an angle in [0, 360). */
  function Hash(input: string): (r: nat)
    ensures r < 360
  {
    HashMod(input, 360)
  }

  method HashAngle(input: string) returns (r: nat)
    ensures r == Hash(input) && r < 360
  {
    var h := HashLoop(input);
    r := Abs(h) % 360;
  }

  /** Virtual node i of a server: named after the server's id, placed at
      the hash of the server's name and i. */
  function NodeOf(server: Server, i: nat): VirtualNode {
    VirtualNode(server.id, server.id + "-vn" + NatText(i), Hash(server.name + "-" + NatText(i)))
  }

  /** The first k virtual nodes of a server, in order. */
  function ServerNodes(server: Server, k: nat): (r: seq<VirtualNode>)
    ensures |r| == k && forall j :: 0 <= j < k ==> r[j] == NodeOf(server, j)
  {
    if k == 0 then [] else ServerNodes(server, k - 1) + [NodeOf(server, k - 1)]
  }

  /** The virtual nodes of all servers in the order they are pushed. */
  function Unsorted(servers: seq<Server>, k: nat): seq<VirtualNode> {
    if servers == [] then [] else ServerNodes(servers[0], k) + Unsorted(servers[1..], k)
  }

  lemma {:induction false} UnsortedLength(servers: seq<Server>, k: nat)
    ensures |Unsorted(servers, k)| == k * |servers|
  {
    if servers != [] {
      UnsortedLength(servers[1..], k);
      MulSucc(k, |servers| - 1);
    }
  }

  lemma MulSucc(a: nat, b: nat)
    ensures a * (b + 1) == a * b + a
  {
  }

  lemma {:induction false} UnsortedAppend(servers: seq<Server>, s: Server, k: nat)
    ensures Unsorted(servers + [s], k) == Unsorted(servers, k) + ServerNodes(s, k)
  {
    if servers == [] {
      assert Unsorted([s], k) == ServerNodes(s, k) + Unsorted([], k);
    } else {
      assert (servers + [s])[1..] == servers[1..] + [s];
      UnsortedAppend(servers[1..], s, k);
    }
  }

  /** Every virtual node is node i of one of the servers, for an i below k. */
  lemma {:induction false} UnsortedNodes(servers: seq<Server>, k: nat, v: VirtualNode)
    requires v in Unsorted(servers, k)
    ensures exists s, i :: s in servers && 0 <= i < k && v == NodeOf(s, i)
  {
    if v in ServerNodes(servers[0], k) {
      var i :| 0 <= i < k && ServerNodes(servers[0], k)[i] == v;
      assert servers[0] in servers && v == NodeOf(servers[0], i);
    } else {
      UnsortedNodes(servers[1..], k, v);
      var s, i :| s in servers[1..] && 0 <= i < k && v == NodeOf(s, i);
      assert s in servers;
    }
  }

  // ---------------------------------------------------------------------
  // Sorting by angle

  predicate SortedByAngle(l: seq<VirtualNode>) {
    forall i, j :: 0 <= i < j < |l| ==> l[i].angle <= l[j].angle
  }

  /** x placed before the first node of l with a larger angle, so that
      nodes of equal angle keep their order. */
  function InsertByAngle(l: seq<VirtualNode>, x: VirtualNode): (r: seq<VirtualNode>)
    ensures |r| == |l| + 1
  {
    if l == [] then [x]
    else if x.angle < l[0].angle then [x] + l
    else [l[0]] + InsertByAngle(l[1..], x)
  }

  /** Inserting adds x to the nodes. */
  lemma {:induction false} InsertByAngleAdds(l: seq<VirtualNode>, x: VirtualNode)
    ensures multiset(InsertByAngle(l, x)) == multiset(l) + multiset{x}
  {
    if l != [] && x.angle >= l[0].angle {
      InsertByAngleAdds(l[1..], x);
      assert l == [l[0]] + l[1..];
    }
  }

  /** Inserting into sorted nodes keeps them sorted. */
  lemma {:induction false} InsertByAngleSorted(l: seq<VirtualNode>, x: VirtualNode)
    requires SortedByAngle(l)
    ensures SortedByAngle(InsertByAngle(l, x))
  {
    if l != [] && x.angle >= l[0].angle {
      var t := InsertByAngle(l[1..], x);
      InsertByAngleSorted(l[1..], x);
      InsertByAngleAdds(l[1..], x);
      forall v | v in t
        ensures l[0].angle <= v.angle
      {
        assert v in multiset(t);
      }
    }
  }

  /** `sort((a, b) => a.angle - b.angle)`: the engine's sort is stable, and
      so is inserting the nodes one by one. */
  function SortByAngle(s: seq<VirtualNode>): (r: seq<VirtualNode>)
    ensures |r| == |s|
  {
    if s == [] then [] else InsertByAngle(SortByAngle(s[..|s| - 1]), s[|s| - 1])
  }

  /** Sorting permutes the nodes into ascending order of angle. */
  lemma {:induction false} SortByAngleSorts(s: seq<VirtualNode>)
    ensures multiset(SortByAngle(s)) == multiset(s) && SortedByAngle(SortByAngle(s))
  {
    if s != [] {
      assert s == s[..|s| - 1] + [s[|s| - 1]];
      SortByAngleSorts(s[..|s| - 1]);
      InsertByAngleAdds(SortByAngle(s[..|s| - 1]), s[|s| - 1]);
      InsertByAngleSorted(SortByAngle(s[..|s| - 1]), s[|s| - 1]);
    }
  }

  /** `generateVirtualNodes`: the nodes of every server, sorted by angle. */
  method GenerateVirtualNodes(servers: seq<Server>, k: nat) returns (nodes: seq<VirtualNode>)
    ensures nodes == SortByAngle(Unsorted(servers, k))
  {
    var pushed: seq<VirtualNode> := [];
    for n := 0 to |servers|
      invariant pushed == Unsorted(servers[..n], k)
    {
      var server := servers[n];
      ghost var before := pushed;
      for i := 0 to k
        invariant pushed == before + ServerNodes(server, i)
      {
        var angle := HashAngle(server.name + "-" + NatText(i));
        pushed := pushed + [VirtualNode(server.id, server.id + "-vn" + NatText(i), angle)];
      }
      assert servers[..n + 1] == servers[..n] + [server];
      UnsortedAppend(servers[..n], server, k);
    }
    assert servers[..|servers|] == servers;
    nodes := SortByAngle(pushed);
  }

  /** The generated nodes: k per server, ascending by angle, each node i of
      one of the servers. */
  lemma GeneratedNodes(servers: seq<Server>, k: nat)
    ensures |SortByAngle(Unsorted(servers, k))| == k * |servers|
    ensures SortedByAngle(SortByAngle(Unsorted(servers, k)))
    ensures forall v :: v in SortByAngle(Unsorted(servers, k)) ==> exists s, i :: s in servers && 0 <= i < k && v == NodeOf(s, i)
  {
    UnsortedLength(servers, k);
    SortByAngleSorts(Unsorted(servers, k));
    forall v | v in SortByAngle(Unsorted(servers, k))
      ensures exists s, i :: s in servers && 0 <= i < k && v == NodeOf(s, i)
    {
      assert v in multiset(Unsorted(servers, k));
      UnsortedNodes(servers, k, v);
    }
  }

  // ---------------------------------------------------------------------
  // Finding the server of an angle

  /** The index of the first node at or after angle, or -1. */
  function FirstAtLeast(nodes: seq<VirtualNode>, angle: int): (r: int)
    ensures -1 <= r < |nodes|
    ensures r >= 0 ==> nodes[r].angle >= angle && forall j :: 0 <= j < r ==> nodes[j].angle < angle
    ensures r == -1 ==> forall j :: 0 <= j < |nodes| ==> nodes[j].angle < angle
  {
    if nodes == [] then -1
    else if nodes[0].angle >= angle then 0
    else
      var t := FirstAtLeast(nodes[1..], angle);
      if t == -1 then -1 else t + 1
  }

  /** `findNextServer`: the server of the first node at or after angle,
      else of the first node; '' when there is none. */
  function FindNextServer(angle: int, nodes: seq<VirtualNode>): string {
    if |nodes| == 0 then ""
    else
      var i := FirstAtLeast(nodes, angle);
      if i == -1 then nodes[0].serverId else nodes[i].serverId
  }

  /** On a ring sorted by angle the server found is that of the nearest
      node clockwise: the least angle at or after the key's, or the least
      angle of all when every node lies before the key. */
  lemma FindNextIsSuccessor(angle: int, nodes: seq<VirtualNode>)
    requires SortedByAngle(nodes) && |nodes| > 0
    ensures exists j :: (0 <= j < |nodes| && FindNextServer(angle, nodes) == nodes[j].serverId
      && (forall m :: 0 <= m < |nodes| ==> nodes[j].angle <= nodes[m].angle || nodes[m].angle < angle)
      && (nodes[j].angle >= angle || forall m :: 0 <= m < |nodes| ==> nodes[m].angle < angle))
  {
    var i := FirstAtLeast(nodes, angle);
    var j := if i == -1 then 0 else i;
    assert FindNextServer(angle, nodes) == nodes[j].serverId;
  }

  /** `assignKeys`: every key keeps its id, value and angle and is assigned
      the server found for its angle. */
  function AssignKeys(keys: seq<Key>, nodes: seq<VirtualNode>): (r: seq<Key>)
    ensures |r| == |keys|
    ensures forall i :: 0 <= i < |keys| ==> r[i] == keys[i].(assignedServer := FindNextServer(keys[i].angle, nodes))
  {
    seq(|keys|, i requires 0 <= i < |keys| => keys[i].(assignedServer := FindNextServer(keys[i].angle, nodes)))
  }

  // ---------------------------------------------------------------------
  // Adding a server moves keys only onto it

  /** Inserting x changes the first node at or after an angle at most to x. */
  lemma {:induction false} InsertFirst(l: seq<VirtualNode>, x: VirtualNode, angle: int)
    ensures var r := InsertByAngle(l, x);
      (FirstAtLeast(r, angle) == -1 <==> FirstAtLeast(l, angle) == -1 && x.angle < angle)
      && (FirstAtLeast(r, angle) >= 0 ==> r[FirstAtLeast(r, angle)] == x || (FirstAtLeast(l, angle) >= 0 && r[FirstAtLeast(r, angle)] == l[FirstAtLeast(l, angle)]))
      && (r[0] == x || (|l| > 0 && r[0] == l[0]))
  {
    if l != [] && x.angle >= l[0].angle {
      InsertFirst(l[1..], x, angle);
    }
  }

  /** After inserting x, the server found is the old one or x's. */
  lemma FindAfterInsert(l: seq<VirtualNode>, x: VirtualNode, angle: int)
    ensures FindNextServer(angle, InsertByAngle(l, x)) == x.serverId
      || (|l| > 0 && FindNextServer(angle, InsertByAngle(l, x)) == FindNextServer(angle, l))
  {
    InsertFirst(l, x, angle);
  }

  /** Sorting a ring with more nodes appended only moves an angle to the
      server of one of the new nodes. */
  lemma {:induction false} FindAfterAppend(a: seq<VirtualNode>, b: seq<VirtualNode>, angle: int)
    ensures var r := FindNextServer(angle, SortByAngle(a + b));
      r == FindNextServer(angle, SortByAngle(a)) || exists v :: v in b && r == v.serverId
    decreases |b|
  {
    if b != [] {
      var front := b[..|b| - 1];
      var last := b[|b| - 1];
      assert (a + b)[..|a + b| - 1] == a + front && (a + b)[|a + b| - 1] == last;
      var before := SortByAngle(a + front);
      assert SortByAngle(a + b) == InsertByAngle(before, last);
      var r := FindNextServer(angle, SortByAngle(a + b));
      FindAfterInsert(before, last, angle);
      assert last in b;
      if r != last.serverId {
        assert |before| > 0 && r == FindNextServer(angle, before);
        FindAfterAppend(a, front, angle);
        if r != FindNextServer(angle, SortByAngle(a)) {
          var v :| v in front && r == v.serverId;
          assert v in b;
        }
      }
    } else {
      assert a + b == a;
    }
  }

  /** Consistent hashing's promise for additions: once a server joins the
      ring, every key stays with its server or moves to the new one. */
  lemma AddServerMovesOnlyToIt(servers: seq<Server>, s: Server, k: nat, angle: int)
    ensures var r := FindNextServer(angle, SortByAngle(Unsorted(servers + [s], k)));
      r == FindNextServer(angle, SortByAngle(Unsorted(servers, k))) || r == s.id
  {
    UnsortedAppend(servers, s, k);
    FindAfterAppend(Unsorted(servers, k), ServerNodes(s, k), angle);
  }

  // ---------------------------------------------------------------------
  // Removing a server moves only its keys

  /** `servers.filter(s => s.id !== id)`. */
  function WithoutServer(servers: seq<Server>, id: string): (r: seq<Server>)
    ensures forall s :: s in r <==> s in servers && s.id != id
  {
    if servers == [] then []
    else (if servers[0].id != id then [servers[0]] else []) + WithoutServer(servers[1..], id)
  }

  /** The nodes that do not belong to server id, in order. */
  function WithoutNodesOf(nodes: seq<VirtualNode>, id: string): (r: seq<VirtualNode>)
    ensures |r| <= |nodes|
  {
    if nodes == [] then []
    else (if nodes[0].serverId != id then [nodes[0]] else []) + WithoutNodesOf(nodes[1..], id)
  }

  /** A node is kept exactly when it is there and not the server's. */
  lemma {:induction false} WithoutNodesMember(nodes: seq<VirtualNode>, id: string, v: VirtualNode)
    ensures v in WithoutNodesOf(nodes, id) <==> v in nodes && v.serverId != id
  {
    if nodes != [] {
      WithoutNodesMember(nodes[1..], id, v);
      assert nodes == [nodes[0]] + nodes[1..];
    }
  }

  lemma {:induction false} WithoutNodesAppend(a: seq<VirtualNode>, b: seq<VirtualNode>, id: string)
    ensures WithoutNodesOf(a + b, id) == WithoutNodesOf(a, id) + WithoutNodesOf(b, id)
  {
    if a != [] {
      assert (a + b)[1..] == a[1..] + b;
      WithoutNodesAppend(a[1..], b, id);
    } else {
      assert a + b == b;
    }
  }

  lemma {:induction false} ServerNodesOwned(s: Server, k: nat, id: string)
    ensures WithoutNodesOf(ServerNodes(s, k), id) == if s.id == id then [] else ServerNodes(s, k)
  {
    if k > 0 {
      ServerNodesOwned(s, k - 1, id);
      WithoutNodesAppend(ServerNodes(s, k - 1), [NodeOf(s, k - 1)], id);
      assert WithoutNodesOf([NodeOf(s, k - 1)], id) == if s.id == id then [] else [NodeOf(s, k - 1)] by {
        assert [NodeOf(s, k - 1)][1..] == [];
      }
    }
  }

  /** The nodes of the remaining servers are the old nodes without the
      removed server's. */
  lemma {:induction false} UnsortedWithout(servers: seq<Server>, k: nat, id: string)
    ensures Unsorted(WithoutServer(servers, id), k) == WithoutNodesOf(Unsorted(servers, k), id)
  {
    if servers != [] {
      var s := servers[0];
      UnsortedWithout(servers[1..], k, id);
      WithoutNodesAppend(ServerNodes(s, k), Unsorted(servers[1..], k), id);
      ServerNodesOwned(s, k, id);
      if s.id != id {
        assert Unsorted([s] + WithoutServer(servers[1..], id), k) == ServerNodes(s, k) + Unsorted(WithoutServer(servers[1..], id), k) by {
          assert ([s] + WithoutServer(servers[1..], id))[1..] == WithoutServer(servers[1..], id);
        }
      } else {
        assert [] + WithoutServer(servers[1..], id) == WithoutServer(servers[1..], id);
      }
    }
  }

  /** On a sorted ring, removing nodes commutes with inserting one. */
  lemma {:induction false} WithoutInsert(l: seq<VirtualNode>, x: VirtualNode, id: string)
    requires SortedByAngle(l)
    ensures WithoutNodesOf(InsertByAngle(l, x), id)
      == if x.serverId != id then InsertByAngle(WithoutNodesOf(l, id), x) else WithoutNodesOf(l, id)
  {
    if l == [] {
      WithoutFront(x, [], id);
      assert [x] + [] == [x];
    } else if x.angle < l[0].angle {
      WithoutInsertBefore(l, x, id);
    } else {
      var t := InsertByAngle(l[1..], x);
      assert InsertByAngle(l, x) == [l[0]] + t;
      WithoutFront(l[0], t, id);
      WithoutFront(l[0], l[1..], id);
      assert [l[0]] + l[1..] == l;
      WithoutInsert(l[1..], x, id);
      var w1 := WithoutNodesOf(l[1..], id);
      if l[0].serverId != id && x.serverId != id {
        assert ([l[0]] + w1)[0] == l[0] && ([l[0]] + w1)[1..] == w1;
        assert InsertByAngle([l[0]] + w1, x) == [l[0]] + InsertByAngle(w1, x);
      } else if l[0].serverId == id {
        assert [] + w1 == w1 && [] + WithoutNodesOf(t, id) == WithoutNodesOf(t, id);
      }
    }
  }

  /** The case of WithoutInsert where x goes in front. */
  lemma WithoutInsertBefore(l: seq<VirtualNode>, x: VirtualNode, id: string)
    requires SortedByAngle(l) && l != [] && x.angle < l[0].angle
    ensures WithoutNodesOf(InsertByAngle(l, x), id)
      == if x.serverId != id then InsertByAngle(WithoutNodesOf(l, id), x) else WithoutNodesOf(l, id)
  {
    var w := WithoutNodesOf(l, id);
    assert InsertByAngle(l, x) == [x] + l;
    WithoutFront(x, l, id);
    if x.serverId != id {
      if w != [] {
        WithoutNodesMember(l, id, w[0]);
        var m :| 0 <= m < |l| && l[m] == w[0];
        assert l[0].angle <= l[m].angle;
      }
      assert InsertByAngle(w, x) == [x] + w;
    } else {
      assert [] + w == w;
    }
  }

  /** Dropping nodes from a sequence with a known first node. */
  lemma WithoutFront(v: VirtualNode, l: seq<VirtualNode>, id: string)
    ensures WithoutNodesOf([v] + l, id) == (if v.serverId != id then [v] else []) + WithoutNodesOf(l, id)
  {
    assert ([v] + l)[0] == v && ([v] + l)[1..] == l;
  }

  /** Sorting and dropping a server's nodes commute. */
  lemma {:induction false} SortWithout(s: seq<VirtualNode>, id: string)
    ensures SortByAngle(WithoutNodesOf(s, id)) == WithoutNodesOf(SortByAngle(s), id)
  {
    if s != [] {
      var front := s[..|s| - 1];
      var last := s[|s| - 1];
      assert s == front + [last];
      SortWithout(front, id);
      SortByAngleSorts(front);
      WithoutNodesAppend(front, [last], id);
      assert WithoutNodesOf([last], id) == if last.serverId != id then [last] else [] by {
        assert [last][1..] == [];
      }
      WithoutInsert(SortByAngle(front), last, id);
      if last.serverId != id {
        var w := WithoutNodesOf(front, id);
        assert (w + [last])[..|w|] == w && (w + [last])[|w|] == last;
      } else {
        assert WithoutNodesOf(front, id) + [] == WithoutNodesOf(front, id);
      }
    }
  }

  /** Dropping other servers' nodes keeps the node found for an angle. */
  lemma {:induction false} FirstWithout(l: seq<VirtualNode>, id: string, angle: int)
    requires FirstAtLeast(l, angle) >= 0 && l[FirstAtLeast(l, angle)].serverId != id
    ensures var w := WithoutNodesOf(l, id);
      FirstAtLeast(w, angle) >= 0 && w[FirstAtLeast(w, angle)] == l[FirstAtLeast(l, angle)]
  {
    WithoutFront(l[0], l[1..], id);
    assert [l[0]] + l[1..] == l;
    var w1 := WithoutNodesOf(l[1..], id);
    if l[0].angle >= angle {
      FirstAtLeastFront(l[0], w1, angle);
    } else {
      var t := FirstAtLeast(l[1..], angle);
      assert FirstAtLeast(l, angle) == t + 1;
      assert l[1..][t] == l[t + 1];
      FirstWithout(l[1..], id, angle);
      var u := FirstAtLeast(w1, angle);
      if l[0].serverId != id {
        FirstAtLeastFront(l[0], w1, angle);
        assert ([l[0]] + w1)[u + 1] == w1[u];
      } else {
        assert [] + w1 == w1;
      }
    }
  }

  /** The first node at or after angle in a sequence with a known first node. */
  lemma FirstAtLeastFront(v: VirtualNode, l: seq<VirtualNode>, angle: int)
    ensures FirstAtLeast([v] + l, angle)
      == if v.angle >= angle then 0 else if FirstAtLeast(l, angle) == -1 then -1 else FirstAtLeast(l, angle) + 1
  {
    assert ([v] + l)[0] == v && ([v] + l)[1..] == l;
  }

  /** Once no node lies at or after angle, none does after dropping some. */
  lemma {:induction false} NoneAtLeastWithout(l: seq<VirtualNode>, id: string, angle: int)
    requires FirstAtLeast(l, angle) == -1
    ensures FirstAtLeast(WithoutNodesOf(l, id), angle) == -1
  {
    var w := WithoutNodesOf(l, id);
    forall j | 0 <= j < |w|
      ensures w[j].angle < angle
    {
      WithoutNodesMember(l, id, w[j]);
    }
  }

  /** Consistent hashing's promise for removals: once a server leaves the
      ring, every key it did not hold stays where it was. */
  lemma RemoveServerMovesOnlyItsKeys(servers: seq<Server>, id: string, k: nat, angle: int)
    requires FindNextServer(angle, SortByAngle(Unsorted(servers, k))) != id
    requires |Unsorted(servers, k)| > 0
    ensures FindNextServer(angle, SortByAngle(Unsorted(WithoutServer(servers, id), k)))
         == FindNextServer(angle, SortByAngle(Unsorted(servers, k)))
  {
    var l := SortByAngle(Unsorted(servers, k));
    UnsortedWithout(servers, k, id);
    SortWithout(Unsorted(servers, k), id);
    var w := WithoutNodesOf(l, id);
    assert SortByAngle(Unsorted(WithoutServer(servers, id), k)) == w;
    var i := FirstAtLeast(l, angle);
    if i >= 0 {
      FirstWithout(l, id, angle);
    } else {
      NoneAtLeastWithout(l, id, angle);
      WithoutNodesMember(l, id, l[0]);
      assert w[0] == l[0] by {
        assert l == [l[0]] + l[1..];
        assert WithoutNodesOf(l, id) == [l[0]] + WithoutNodesOf(l[1..], id);
      }
    }
  }

  // ---------------------------------------------------------------------
  // The page

  /** The ring the page shows: the servers, the keys with their
      assignments, the slider's virtual-node count, and the steps. */
  class Ring {
    var servers: seq<Server>
    var keys: seq<Key>
    var virtualNodesPerServer: nat
    var steps: seq<RingStep>
    var currentStep: int

    /** The three initial servers, no keys and no steps. */
    constructor ()
      ensures servers == [Server("server1", "Server A", 90), Server("server2", "Server B", 210), Server("server3", "Server C", 330)]
      ensures keys == [] && virtualNodesPerServer == 3 && steps == [] && currentStep == 0
    {
      servers := [Server("server1", "Server A", 90), Server("server2", "Server B", 210), Server("server3", "Server C", 330)];
      keys := [];
      virtualNodesPerServer := 3;
      steps := [];
      currentStep := 0;
    }

    /** `addServer`: a blank name changes nothing; otherwise the server
        joins with an id from the clock reading now, every key is
        reassigned, and each key stays or moves to the new server. */
    method AddServer(name: string, now: nat)
      modifies this
      ensures virtualNodesPerServer == old(virtualNodesPerServer)
      ensures Blank(name) ==> servers == old(servers) && keys == old(keys) && steps == old(steps) && currentStep == old(currentStep)
      ensures !Blank(name) ==>
        var added := Server("server" + NatText(now), name, Hash(name));
        var nodes := SortByAngle(Unsorted(servers, virtualNodesPerServer));
        servers == old(servers) + [added]
        && keys == AssignKeys(old(keys), nodes)
        && steps == old(steps) + [RingStep(servers, nodes, keys, [added.id], AddServerStage)]
        && currentStep == old(currentStep) + 1
        && forall i :: 0 <= i < |keys| ==>
             keys[i].assignedServer == added.id
             || keys[i].assignedServer == FindNextServer(keys[i].angle, SortByAngle(Unsorted(old(servers), virtualNodesPerServer)))
    {
      if Blank(name) {
        return;
      }
      var angle := HashAngle(name);
      var added := Server("server" + NatText(now), name, angle);
      var newServers := servers + [added];
      var nodes := GenerateVirtualNodes(newServers, virtualNodesPerServer);
      var updated := AssignKeys(keys, nodes);
      forall i | 0 <= i < |updated|
        ensures updated[i].assignedServer == added.id
             || updated[i].assignedServer == FindNextServer(updated[i].angle, SortByAngle(Unsorted(servers, virtualNodesPerServer)))
      {
        AddServerMovesOnlyToIt(servers, added, virtualNodesPerServer, keys[i].angle);
      }
      servers := newServers;
      keys := updated;
      steps := steps + [RingStep(newServers, nodes, updated, [added.id], AddServerStage)];
      currentStep := currentStep + 1;
    }

    /** `removeServer`: the servers with that id leave, every key is
        reassigned, and a key not held by the removed server stays put. */
    method RemoveServer(serverId: string)
      modifies this
      ensures virtualNodesPerServer == old(virtualNodesPerServer)
      ensures var nodes := SortByAngle(Unsorted(servers, virtualNodesPerServer));
        servers == WithoutServer(old(servers), serverId)
        && keys == AssignKeys(old(keys), nodes)
        && steps == old(steps) + [RingStep(servers, nodes, keys, [], RemoveServerStage)]
        && currentStep == old(currentStep) + 1
      ensures forall i :: (0 <= i < |keys| && |old(servers)| > 0 && virtualNodesPerServer > 0
        && FindNextServer(keys[i].angle, SortByAngle(Unsorted(old(servers), virtualNodesPerServer))) != serverId) ==>
          keys[i].assignedServer == FindNextServer(keys[i].angle, SortByAngle(Unsorted(old(servers), virtualNodesPerServer)))
    {
      var newServers := WithoutServer(servers, serverId);
      var nodes := GenerateVirtualNodes(newServers, virtualNodesPerServer);
      var updated := AssignKeys(keys, nodes);
      forall i | 0 <= i < |updated| && |servers| > 0 && virtualNodesPerServer > 0
        && FindNextServer(updated[i].angle, SortByAngle(Unsorted(servers, virtualNodesPerServer))) != serverId
        ensures updated[i].assignedServer == FindNextServer(updated[i].angle, SortByAngle(Unsorted(servers, virtualNodesPerServer)))
      {
        RemoveServerMovesOnlyItsKeys(servers, serverId, virtualNodesPerServer, keys[i].angle);
      }
      servers := newServers;
      keys := updated;
      steps := steps + [RingStep(newServers, nodes, updated, [], RemoveServerStage)];
      currentStep := currentStep + 1;
    }

    /** `addKey`: a blank value changes nothing; otherwise the key joins at
        the hash of its value and every key is reassigned. */
    method AddKey(value: string, now: nat)
      modifies this
      ensures servers == old(servers) && virtualNodesPerServer == old(virtualNodesPerServer)
      ensures Blank(value) ==> keys == old(keys) && steps == old(steps) && currentStep == old(currentStep)
      ensures !Blank(value) ==>
        var key := Key("key" + NatText(now), value, Hash(value), "");
        var nodes := SortByAngle(Unsorted(servers, virtualNodesPerServer));
        keys == AssignKeys(old(keys) + [key], nodes)
        && steps == old(steps) + [RingStep(servers, nodes, keys, [key.id], AddKeyStage)]
        && currentStep == old(currentStep) + 1
    {
      if Blank(value) {
        return;
      }
      var angle := HashAngle(value);
      var key := Key("key" + NatText(now), value, angle, "");
      var nodes := GenerateVirtualNodes(servers, virtualNodesPerServer);
      var updated := AssignKeys(keys + [key], nodes);
      keys := updated;
      steps := steps + [RingStep(servers, nodes, updated, [key.id], AddKeyStage)];
      currentStep := currentStep + 1;
    }

    /** `removeKey`: the keys with that id leave; every other key keeps its
        place and its assignment. */
    method RemoveKey(keyId: string)
      modifies this
      ensures servers == old(servers) && virtualNodesPerServer == old(virtualNodesPerServer)
      ensures keys == WithoutKey(old(keys), keyId)
      ensures steps == old(steps) + [RingStep(servers, SortByAngle(Unsorted(servers, virtualNodesPerServer)), keys, [], RemoveKeyStage)]
      ensures currentStep == old(currentStep) + 1
    {
      var updated := WithoutKey(keys, keyId);
      keys := updated;
      var nodes := GenerateVirtualNodes(servers, virtualNodesPerServer);
      steps := steps + [RingStep(servers, nodes, updated, [], RemoveKeyStage)];
      currentStep := currentStep + 1;
    }

    /** The virtual-node slider. */
    method SetVirtualNodesPerServer(k: nat)
      requires 1 <= k <= 5
      modifies this
      ensures virtualNodesPerServer == k
      ensures servers == old(servers) && keys == old(keys) && steps == old(steps) && currentStep == old(currentStep)
    {
      virtualNodesPerServer := k;
    }

    /** `initializeDemo`: four demo keys assigned on the current ring, and
        one setup step. */
    method InitializeDemo()
      modifies this
      ensures servers == old(servers) && virtualNodesPerServer == old(virtualNodesPerServer)
      ensures var nodes := SortByAngle(Unsorted(servers, virtualNodesPerServer));
        keys == AssignKeys(DemoKeys(), nodes)
        && steps == [RingStep(servers, nodes, keys, [], Setup)] && currentStep == 0
    {
      var nodes := GenerateVirtualNodes(servers, virtualNodesPerServer);
      keys := AssignKeys(DemoKeys(), nodes);
      steps := [RingStep(servers, nodes, keys, [], Setup)];
      currentStep := 0;
    }

    /** `resetDemo`. */
    method ResetDemo()
      modifies this
      ensures servers == old(servers) && virtualNodesPerServer == old(virtualNodesPerServer)
      ensures keys == [] && steps == [] && currentStep == 0
    {
      keys := [];
      steps := [];
      currentStep := 0;
    }
  }

  /** `keys.filter(k => k.id !== keyId)`. */
  function WithoutKey(keys: seq<Key>, keyId: string): (r: seq<Key>)
    ensures forall key :: key in r <==> key in keys && key.id != keyId
  {
    if keys == [] then []
    else (if keys[0].id != keyId then [keys[0]] else []) + WithoutKey(keys[1..], keyId)
  }

  /** Removing a key keeps every other key, in order, with its assignment:
      the other keys form a subsequence of the old ones. */
  lemma {:induction false} WithoutKeyKeepsOthers(keys: seq<Key>, keyId: string)
    ensures |WithoutKey(keys, keyId)| <= |keys|
    ensures (forall key :: key in keys ==> key.id == keyId) <==> WithoutKey(keys, keyId) == []
    ensures (forall key :: key in keys ==> key.id != keyId) ==> WithoutKey(keys, keyId) == keys
  {
    if keys != [] {
      WithoutKeyKeepsOthers(keys[1..], keyId);
      assert keys == [keys[0]] + keys[1..];
    }
  }

  /** The demo keys, before assignment. */
  function DemoKeys(): (r: seq<Key>)
    ensures |r| == 4 && forall i :: 0 <= i < 4 ==> r[i].assignedServer == "" && r[i].angle == Hash(r[i].value)
  {
    [Key("key1", "user123", Hash("user123"), ""), Key("key2", "data456", Hash("data456"), ""),
     Key("key3", "file789", Hash("file789"), ""), Key("key4", "cache001", Hash("cache001"), "")]
  }
}
