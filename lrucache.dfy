/** The LRU cache page: a map from keys to the nodes of a doubly linked
    list that runs from a HEAD sentinel to a TAIL sentinel, most recently
    used first. `get` and `put` move the node they touch to the front, and
    a `put` of a new key into a full cache first evicts the node before
    TAIL. Node objects are numbered here: `next`, `prev`, `key` and `value`
    map a node's number to its fields, and a missing entry is a null
    pointer. */
module LruCache {
  import opened Common

  datatype Entry = Entry(key: string, value: string)

  // ---------------------------------------------------------------------
  // The cache as a list of entries, most recently used first

  /** The first index whose entry has key k, or -1. */
  function KeyIndex(e: seq<Entry>, k: string): (r: int)
    ensures -1 <= r < |e|
    ensures r == -1 <==> forall i :: 0 <= i < |e| ==> e[i].key != k
    ensures r >= 0 ==> e[r].key == k && forall i :: 0 <= i < r ==> e[i].key != k
  {
    if e == [] then -1
    else if e[0].key == k then 0
    else
      var r := KeyIndex(e[1..], k);
      if r == -1 then -1 else r + 1
  }

  /** No key occurs twice. */
  ghost predicate DistinctKeys(e: seq<Entry>) {
    forall i, j :: 0 <= i < j < |e| ==> e[i].key != e[j].key
  }

  /** The value cached under k, if any. */
  function Lookup(e: seq<Entry>, k: string): Option<string> {
    var i := KeyIndex(e, k);
    if i < 0 then None else Some(e[i].value)
  }

  /** s with the element at index i taken out. */
  function Without<T>(s: seq<T>, i: int): (r: seq<T>)
    requires 0 <= i < |s|
    ensures |r| == |s| - 1 && forall a :: 0 <= a < |r| ==> r[a] == s[if a < i then a else a + 1]
  {
    s[..i] + s[i + 1..]
  }

  /** s with the element at index i moved to the front. */
  function ToFront<T>(s: seq<T>, i: int): seq<T>
    requires 0 <= i < |s|
  {
    [s[i]] + Without(s, i)
  }

  /** What `get` does to the entries: a hit moves the entry to the front. */
  function AfterGet(e: seq<Entry>, k: string): seq<Entry> {
    var i := KeyIndex(e, k);
    if i < 0 then e else ToFront(e, i)
  }

  /** A `put` of a new key into a cache holding at least `capacity` entries
      evicts the last one (when there is one). */
  predicate Evicts(e: seq<Entry>, capacity: nat, k: string) {
    KeyIndex(e, k) < 0 && |e| >= capacity && |e| > 0
  }

  /** What `put` does to the entries: the key goes to the front with its
      new value, after leaving its old place or, when new and the cache is
      full, after the least recently used entry is evicted. */
  function AfterPut(e: seq<Entry>, capacity: nat, k: string, v: string): seq<Entry> {
    [Entry(k, v)] + Kept(e, capacity, k)
  }

  /** The entries `put` keeps behind the new one. */
  function Kept(e: seq<Entry>, capacity: nat, k: string): seq<Entry> {
    var i := KeyIndex(e, k);
    if i >= 0 then Without(e, i)
    else if Evicts(e, capacity, k) then e[..|e| - 1]
    else e
  }

  /** With distinct keys, the entry at index j is the one found for its key. */
  lemma LookupAt(e: seq<Entry>, j: int)
    requires DistinctKeys(e) && 0 <= j < |e|
    ensures KeyIndex(e, e[j].key) == j && Lookup(e, e[j].key) == Some(e[j].value)
  {
  }

  /** Taking out the entry at index i leaves distinct keys, none of them
      e[i]'s. */
  lemma WithoutKeys(e: seq<Entry>, i: int)
    requires DistinctKeys(e) && 0 <= i < |e|
    ensures DistinctKeys(Without(e, i)) && forall a :: 0 <= a < |e| - 1 ==> Without(e, i)[a].key != e[i].key
  {
  }

  /** Taking out the entry at index i changes no other key's value. */
  lemma WithoutLookup(e: seq<Entry>, i: int, k': string)
    requires DistinctKeys(e) && 0 <= i < |e| && k' != e[i].key
    ensures Lookup(Without(e, i), k') == Lookup(e, k')
  {
    var t := Without(e, i);
    var m := KeyIndex(e, k');
    if m >= 0 {
      var m' := if m < i then m else m - 1;
      WithoutKeys(e, i);
      assert t[m'] == e[m];
      LookupAt(t, m');
    } else {
      forall a | 0 <= a < |t|
        ensures t[a].key != k'
      {
        assert t[a] == e[if a < i then a else a + 1];
      }
    }
  }

  /** An entry put in front of entries without its key. */
  lemma LookupCons(x: Entry, t: seq<Entry>, k': string)
    requires DistinctKeys(t) && forall a :: 0 <= a < |t| ==> t[a].key != x.key
    ensures DistinctKeys([x] + t)
    ensures Lookup([x] + t, k') == if k' == x.key then Some(x.value) else Lookup(t, k')
  {
    var r := [x] + t;
    assert forall a :: 0 < a < |r| ==> r[a] == t[a - 1];
    var m := KeyIndex(t, k');
    if k' != x.key && m >= 0 {
      LookupAt(r, m + 1);
    }
  }

  /** Putting entry x first after taking out the one at index i. */
  lemma ReplaceLookup(e: seq<Entry>, i: int, x: Entry, k': string)
    requires DistinctKeys(e) && 0 <= i < |e| && x.key == e[i].key
    ensures DistinctKeys([x] + Without(e, i))
    ensures Lookup([x] + Without(e, i), k') == if k' == x.key then Some(x.value) else Lookup(e, k')
  {
    WithoutKeys(e, i);
    if k' != x.key {
      WithoutLookup(e, i, k');
    }
    LookupCons(x, Without(e, i), k');
  }

  /** For a cached key, `put` replaces its entry and moves it to the front. */
  lemma PutCached(e: seq<Entry>, capacity: nat, k: string, v: string, j: int)
    requires 0 <= j < |e| && KeyIndex(e, k) == j
    ensures AfterPut(e, capacity, k, v) == ToFront(e[j := Entry(k, v)], j)
  {
    assert Without(e[j := Entry(k, v)], j) == Without(e, j);
  }

  /** Moving an entry to the front keeps the same entries. */
  lemma ToFrontPermutes<T>(s: seq<T>, i: int)
    requires 0 <= i < |s|
    ensures multiset(ToFront(s, i)) == multiset(s)
  {
    assert s == s[..i] + [s[i]] + s[i + 1..];
  }

  /** `get` returns the cached value and changes no key's value; a hit puts
      the key first and keeps the same entries, a miss changes nothing. */
  lemma GetKeeps(e: seq<Entry>, k: string, k': string)
    requires DistinctKeys(e)
    ensures DistinctKeys(AfterGet(e, k))
    ensures Lookup(AfterGet(e, k), k') == Lookup(e, k')
    ensures Lookup(e, k).Some? ==>
              AfterGet(e, k)[0] == Entry(k, Lookup(e, k).value) && multiset(AfterGet(e, k)) == multiset(e)
    ensures Lookup(e, k).None? ==> AfterGet(e, k) == e
  {
    var i := KeyIndex(e, k);
    if i >= 0 {
      ReplaceLookup(e, i, e[i], k');
      if k' == k {
        LookupAt(e, i);
      }
      ToFrontPermutes(e, i);
    }
  }

  /** After `put`, the key holds the new value, the key evicted (if any)
      holds nothing, and every other key keeps its value. */
  lemma PutLookup(e: seq<Entry>, capacity: nat, k: string, v: string, k': string)
    requires DistinctKeys(e)
    ensures DistinctKeys(AfterPut(e, capacity, k, v))
    ensures Lookup(AfterPut(e, capacity, k, v), k') ==
      if k' == k then Some(v)
      else if Evicts(e, capacity, k) && k' == e[|e| - 1].key then None
      else Lookup(e, k')
  {
    var i := KeyIndex(e, k);
    var x := Entry(k, v);
    if i >= 0 {
      ReplaceLookup(e, i, x, k');
    } else if Evicts(e, capacity, k) {
      var last := |e| - 1;
      assert Without(e, last) == e[..last];
      WithoutKeys(e, last);
      if k' != e[last].key {
        WithoutLookup(e, last, k');
      }
      LookupCons(x, e[..last], k');
    } else {
      LookupCons(x, e, k');
    }
  }

  /** `put` keeps the number of entries when the key
      was cached or one is evicted, else adds one; so the cache never holds
      more than its capacity (or one entry, for a capacity of zero). */
  lemma PutSize(e: seq<Entry>, capacity: nat, k: string, v: string)
    ensures |AfterPut(e, capacity, k, v)| == if KeyIndex(e, k) >= 0 || Evicts(e, capacity, k) then |e| else |e| + 1
    ensures |e| <= Max(capacity, 1) ==> |AfterPut(e, capacity, k, v)| <= Max(capacity, 1)
  {
  }

  // ---------------------------------------------------------------------
  // Nodes and links

  const HEAD: nat := 0
  const TAIL: nat := 1

  /** The nodes at i and i + 1 are linked both ways. */
  ghost predicate LinkedAt(next: map<nat, nat>, prev: map<nat, nat>, s: seq<nat>, i: int)
    requires 0 <= i < |s| - 1
  {
    s[i] in next && next[s[i]] == s[i + 1] && s[i + 1] in prev && prev[s[i + 1]] == s[i]
  }

  /** Consecutive nodes of s are linked both ways. */
  ghost predicate Linked(next: map<nat, nat>, prev: map<nat, nat>, s: seq<nat>) {
    forall i :: 0 <= i < |s| - 1 ==> LinkedAt(next, prev, s, i)
  }

  /** The nodes at i and j differ. */
  ghost predicate Differ(s: seq<nat>, i: int, j: int)
    requires 0 <= i < |s| && 0 <= j < |s|
  {
    s[i] != s[j]
  }

  /** No node occurs twice: `Distinct`, stated so that it is only used
      where a proof asks for it. */
  ghost predicate Unrepeated(s: seq<nat>) {
    forall i, j :: 0 <= i < j < |s| ==> Differ(s, i, j)
  }

  lemma UnrepeatedIsDistinct(s: seq<nat>)
    ensures Unrepeated(s) <==> Distinct(s)
  {
    if Distinct(s) {
      forall i, j | 0 <= i < j < |s|
        ensures Differ(s, i, j)
      {
      }
    }
    if Unrepeated(s) {
      forall i, j | 0 <= i < j < |s|
        ensures s[i] != s[j]
      {
        assert Differ(s, i, j);
      }
    }
  }

  /** The entries the nodes of ids hold, in order. */
  function EntriesOf(ids: seq<nat>, key: map<nat, string>, value: map<nat, string>): (r: seq<Entry>)
    requires forall n :: n in ids ==> n in key && n in value
    ensures |r| == |ids| && forall i :: 0 <= i < |ids| ==> r[i] == Entry(key[ids[i]], value[ids[i]])
  {
    if ids == [] then [] else [Entry(key[ids[0]], value[ids[0]])] + EntriesOf(ids[1..], key, value)
  }

  /** The link between the nodes at i and i + 1. */
  lemma LinkAt(next: map<nat, nat>, prev: map<nat, nat>, s: seq<nat>, i: int)
    requires Linked(next, prev, s) && 0 <= i < |s| - 1
    ensures s[i] in next && next[s[i]] == s[i + 1] && s[i + 1] in prev && prev[s[i + 1]] == s[i]
  {
    assert LinkedAt(next, prev, s, i);
  }

  /** Unlinking the node at index i joins its neighbours. */
  lemma LinkedRemove(next: map<nat, nat>, prev: map<nat, nat>, s: seq<nat>, i: int)
    requires Distinct(s) && Linked(next, prev, s) && 0 < i < |s| - 1
    ensures Linked(next[s[i - 1] := s[i + 1]], prev[s[i + 1] := s[i - 1]], Without(s, i))
  {
    var t := Without(s, i);
    var next', prev' := next[s[i - 1] := s[i + 1]], prev[s[i + 1] := s[i - 1]];
    forall a | 0 <= a < |t| - 1
      ensures LinkedAt(next', prev', t, a)
    {
      var b := a + 1;
      if a < i - 1 {
        assert t[a] == s[a] && t[b] == s[a + 1];
        LinkAt(next, prev, s, a);
        assert s[a] != s[i - 1] && s[a + 1] != s[i + 1];
      } else if a == i - 1 {
        assert t[a] == s[i - 1] && t[b] == s[i + 1];
      } else {
        assert t[a] == s[a + 1] && t[b] == s[a + 2];
        LinkAt(next, prev, s, a + 1);
        assert s[a + 1] != s[i - 1] && s[a + 2] != s[i + 1];
      }
    }
  }

  /** Linking n in after the first node. */
  lemma LinkedPush(next: map<nat, nat>, prev: map<nat, nat>, s: seq<nat>, n: nat)
    requires Distinct(s) && Linked(next, prev, s) && |s| >= 2 && n !in s
    ensures Linked(next[n := s[1]][s[0] := n], prev[n := s[0]][s[1] := n], [s[0], n] + s[1..])
  {
    var t := [s[0], n] + s[1..];
    var next', prev' := next[n := s[1]][s[0] := n], prev[n := s[0]][s[1] := n];
    forall a | 0 <= a < |t| - 1
      ensures LinkedAt(next', prev', t, a)
    {
      var b := a + 1;
      if a == 0 {
        assert t[a] == s[0] && t[b] == n;
      } else if a == 1 {
        assert t[a] == n && t[b] == s[1];
      } else {
        assert t[a] == s[a - 1] && t[b] == s[a];
        LinkAt(next, prev, s, a - 1);
        assert s[a - 1] != s[0] && s[a] != s[1];
      }
    }
  }

  /** Taking a node out of a list without repeats leaves a list without
      repeats, of nodes from the list, without that node. */
  lemma WithoutDistinct(s: seq<nat>, j: int)
    requires Distinct(s) && 0 <= j < |s|
    ensures Distinct(Without(s, j)) && s[j] !in Without(s, j)
    ensures forall x :: x in Without(s, j) ==> x in s
  {
    var t := Without(s, j);
    forall x | x in t
      ensures x in s && x != s[j]
    {
      var a :| 0 <= a < |t| && t[a] == x;
      assert s[if a < j then a else a + 1] == x;
    }
  }

  /** Moving a node to the front keeps the same nodes. */
  lemma Rotated(s: seq<nat>, j: int)
    requires 0 <= j < |s|
    ensures forall x :: x in ToFront(s, j) <==> x in s
  {
    ToFrontPermutes(s, j);
    assert forall x :: x in ToFront(s, j) <==> x in multiset(ToFront(s, j));
  }

  /** The list between the sentinels, sentinels included, has no repeats
      when the list has none and no sentinel in it. */
  lemma FullDistinct(list: seq<nat>)
    requires Distinct(list) && forall n :: n in list ==> n >= 2
    ensures Distinct([HEAD] + list + [TAIL])
  {
    var s := [HEAD] + list + [TAIL];
    forall a, b | 0 <= a < b < |s|
      ensures s[a] != s[b]
    {
      if 0 < a < |s| - 1 {
        assert s[a] == list[a - 1] && list[a - 1] in list;
      }
      if 0 < b < |s| - 1 {
        assert s[b] == list[b - 1] && list[b - 1] in list;
      }
    }
  }

  /** The node map sends each key to a listed node holding that key, and
      each listed node's key to that node. */
  ghost predicate NodeMap(hashMap: map<string, nat>, list: seq<nat>, key: map<nat, string>) {
    (forall k :: k in hashMap ==> hashMap[k] in list && hashMap[k] in key && key[hashMap[k]] == k)
    && (forall n :: n in list ==> n in key && key[n] in hashMap && hashMap[key[n]] == n)
  }

  /** Entering a new key for a new node in front keeps the node map. */
  lemma NodeMapInsert(hashMap: map<string, nat>, list: seq<nat>, key: map<nat, string>, k: string, n: nat)
    requires NodeMap(hashMap, list, key) && k !in hashMap && n !in list
    ensures NodeMap(hashMap[k := n], [n] + list, key[n := k])
  {
    var list' := [n] + list;
    forall x | x in list'
      ensures x == n || x in list
    {
    }
  }

  /** Dropping the last node and its key keeps the node map. */
  lemma NodeMapEvict(hashMap: map<string, nat>, list: seq<nat>, key: map<nat, string>)
    requires NodeMap(hashMap, list, key) && Distinct(list) && list != []
    ensures NodeMap(hashMap - {key[list[|list| - 1]]}, list[..|list| - 1], key)
  {
    var last := list[|list| - 1];
    var init := list[..|list| - 1];
    assert last in list;
    forall k | k in hashMap && k != key[last]
      ensures hashMap[k] in init
    {
      InitOrLast(list, hashMap[k]);
    }
    forall x | x in init
      ensures x in list && x != last
    {
      var i :| 0 <= i < |init| && init[i] == x;
      assert list[i] == x;
    }
  }

  /** The node map survives a reordering of the list. */
  lemma NodeMapMoved(hashMap: map<string, nat>, list: seq<nat>, list': seq<nat>, key: map<nat, string>)
    requires NodeMap(hashMap, list, key) && forall x :: x in list' <==> x in list
    ensures NodeMap(hashMap, list', key)
  {
  }

  /** The node map holds one key per listed node, and one node per key, so
      `Object.keys(hashMap).length` is the length of the list. */
  lemma {:induction false} MapSize(hashMap: map<string, nat>, list: seq<nat>, key: map<nat, string>)
    requires Distinct(list) && NodeMap(hashMap, list, key)
    ensures |hashMap| == |list|
    decreases |list|
  {
    if list == [] {
      assert hashMap.Keys == {};
    } else {
      var n := list[|list| - 1];
      var init := list[..|list| - 1];
      var m := hashMap - {key[n]};
      forall k | k in m
        ensures m[k] in init
      {
        assert hashMap[k] != n;
        InitOrLast(list, hashMap[k]);
      }
      assert NodeMap(m, init, key);
      MapSize(m, init, key);
      assert m.Keys == hashMap.Keys - {key[n]};
    }
  }

  /** A member of s is its last element or in the part before it. */
  lemma InitOrLast(s: seq<nat>, x: nat)
    requires x in s
    ensures x in s[..|s| - 1] || x == s[|s| - 1]
  {
    var i :| 0 <= i < |s| && s[i] == x;
    if i < |s| - 1 {
      assert s[..|s| - 1][i] == x;
    }
  }

  /** The cache object. `nodes` counts the node objects created so far
      (the sentinels are 0 and 1), so a new node is `nodes`; `list` is the
      ghost view of the chain between the sentinels. */
  class LRUCache {
    var capacity: nat
    var next: map<nat, nat>
    var prev: map<nat, nat>
    var key: map<nat, string>
    var value: map<nat, string>
    var hashMap: map<string, nat>
    var totalOps: nat
    var hits: nat
    var nodes: nat
    ghost var list: seq<nat>

    /** The chain runs HEAD, the listed nodes, TAIL, linked both ways;
        nothing precedes HEAD and nothing follows TAIL. */
    ghost predicate Chain()
      reads this`list, this`nodes, this`key, this`value, this`next, this`prev
    {
      2 <= nodes && Unrepeated(list) && Stored() && (forall n :: n in list ==> 2 <= n < nodes)
      && Linked(next, prev, [HEAD] + list + [TAIL])
      && HEAD !in prev && TAIL !in next
    }

    /** The chain, the node map matching keys and listed nodes one to one,
        and the size bound. */
    ghost predicate Valid()
      reads this`list, this`nodes, this`key, this`value, this`next, this`prev, this`hashMap, this`capacity
    {
      Chain()
      && NodeMap(hashMap, list, key)
      && |list| <= Max(capacity, 1)
    }

    /** Every listed node has a key and a value. */
    ghost predicate Stored()
      reads this`list, this`key, this`value
    {
      forall n :: n in list ==> n in key && n in value
    }

    /** The cached entries, most recently used first. */
    ghost function Entries(): seq<Entry>
      reads this`list, this`key, this`value
      requires Stored()
    {
      EntriesOf(list, key, value)
    }

    /** No key is cached twice. */
    lemma EntriesDistinct()
      requires Valid()
      ensures DistinctKeys(Entries())
    {
      var r := Entries();
      forall i, j | 0 <= i < j < |r|
        ensures r[i].key != r[j].key
      {
        assert list[i] in list && list[j] in list && Differ(list, i, j);
      }
    }

    /** A new cache: the two sentinels linked to each other, no entries,
        no operations counted. */
    constructor (capacity: nat)
      ensures Valid() && Entries() == [] && this.capacity == capacity && totalOps == 0 && hits == 0
    {
      this.capacity := capacity;
      key := map[HEAD := "HEAD", TAIL := "TAIL"];
      value := map[HEAD := "", TAIL := ""];
      next := map[HEAD := TAIL];
      prev := map[TAIL := HEAD];
      hashMap := map[];
      totalOps, hits := 0, 0;
      nodes := 2;
      list := [];
    }

    /** `addToHead`: link node n in right after HEAD. */
    method AddToHead(n: nat)
      requires Chain() && n !in list && 2 <= n < nodes && n in key && n in value
      modifies this
      ensures Chain() && list == [n] + old(list)
      ensures key == old(key) && value == old(value) && hashMap == old(hashMap) && nodes == old(nodes)
      ensures capacity == old(capacity) && totalOps == old(totalOps) && hits == old(hits)
    {
      ghost var s := [HEAD] + list + [TAIL];
      UnrepeatedIsDistinct(list);
      FullDistinct(list);
      LinkAt(next, prev, s, 0);
      var first := next[HEAD];
      prev := prev[n := HEAD];
      next := next[n := first];
      prev := prev[first := n];
      next := next[HEAD := n];
      LinkedPush(old(next), old(prev), s, n);
      assert [HEAD, n] + s[1..] == [HEAD] + ([n] + list) + [TAIL];
      list := [n] + list;
      assert Distinct(list) by {
        forall a, b | 0 <= a < b < |list|
          ensures list[a] != list[b]
        {
          assert list[b] == old(list)[b - 1];
          if a > 0 {
            assert list[a] == old(list)[a - 1];
          }
        }
      }
      UnrepeatedIsDistinct(list);
    }

    /** `removeNode`: join the neighbours of the node at index j. The node
        keeps its own links. */
    method RemoveNode(n: nat, ghost j: int)
      requires Chain() && 0 <= j < |list| && list[j] == n
      modifies this
      ensures Chain() && list == Without(old(list), j)
      ensures key == old(key) && value == old(value) && hashMap == old(hashMap) && nodes == old(nodes)
      ensures capacity == old(capacity) && totalOps == old(totalOps) && hits == old(hits)
    {
      ghost var s := [HEAD] + list + [TAIL];
      UnrepeatedIsDistinct(list);
      FullDistinct(list);
      assert s[j + 1] == n;
      LinkAt(next, prev, s, j);
      LinkAt(next, prev, s, j + 1);
      var before := prev[n];
      var after := next[n];
      next := next[before := after];
      prev := prev[after := before];
      LinkedRemove(old(next), old(prev), s, j + 1);
      assert Without(s, j + 1) == [HEAD] + Without(list, j) + [TAIL];
      WithoutDistinct(list, j);
      list := Without(list, j);
      UnrepeatedIsDistinct(list);
    }

    /** `moveToHead`: unlink the node at index j and link it in first. */
    method MoveToHead(n: nat, ghost j: int)
      requires Chain() && 0 <= j < |list| && list[j] == n
      modifies this
      ensures Chain() && list == ToFront(old(list), j) && forall x :: x in list <==> x in old(list)
      ensures Entries() == ToFront(old(Entries()), j)
      ensures key == old(key) && value == old(value) && hashMap == old(hashMap) && nodes == old(nodes)
      ensures capacity == old(capacity) && totalOps == old(totalOps) && hits == old(hits)
    {
      assert n in list && 2 <= n < nodes && n in key && n in value;
      UnrepeatedIsDistinct(list);
      WithoutDistinct(list, j);
      Rotated(list, j);
      EntriesToFront(list, j, key, value);
      RemoveNode(n, j);
      AddToHead(n);
    }

    /** `removeTail`: nothing on an empty cache, else unlink and return the
        node before TAIL. */
    method RemoveTail() returns (r: Option<nat>)
      requires Chain()
      modifies this
      ensures Chain()
      ensures old(list) == [] ==> r == None && list == []
      ensures old(list) != [] ==> r == Some(old(list)[|old(list)| - 1]) && list == old(list)[..|old(list)| - 1]
      ensures key == old(key) && value == old(value) && hashMap == old(hashMap) && nodes == old(nodes)
      ensures capacity == old(capacity) && totalOps == old(totalOps) && hits == old(hits)
    {
      ghost var s := [HEAD] + list + [TAIL];
      assert s[|s| - 2] == if list == [] then HEAD else list[|list| - 1];
      LinkAt(next, prev, s, |s| - 2);
      assert list != [] ==> list[|list| - 1] in list;
      var last := prev[TAIL];
      if last == HEAD {
        return None;
      }
      RemoveNode(last, |list| - 1);
      assert list == old(list)[..|old(list)| - 1];
      return Some(last);
    }

    /** Moving a node to the front moves its entry to the front. */
    static lemma EntriesToFront(list: seq<nat>, j: int, key: map<nat, string>, value: map<nat, string>)
      requires 0 <= j < |list| && forall x :: x in list ==> x in key && x in value
      ensures forall x :: x in ToFront(list, j) ==> x in key && x in value
      ensures EntriesOf(ToFront(list, j), key, value) == ToFront(EntriesOf(list, key, value), j)
    {
      Rotated(list, j);
    }

    /** A key is cached exactly when the node map has it, and then its
        entry sits where its node is listed. */
    lemma KeyCached(k: string)
      requires Valid()
      ensures var i := KeyIndex(Entries(), k); (i >= 0 <==> k in hashMap) && (i >= 0 ==> list[i] == hashMap[k])
    {
      var e := Entries();
      EntriesDistinct();
      if k in hashMap {
        var j := IndexOf(list, hashMap[k]);
        LookupAt(e, j);
      } else {
        forall i | 0 <= i < |e|
          ensures e[i].key != k
        {
          assert list[i] in list;
        }
      }
    }

    /** `get`: count the operation; on a hit count it, move the node to
        the front and return its value; on a miss change nothing else. */
    method Get(k: string) returns (r: Option<string>)
      requires Valid()
      modifies this
      ensures Valid() && capacity == old(capacity)
      ensures r == Lookup(old(Entries()), k) && Entries() == AfterGet(old(Entries()), k)
      ensures totalOps == old(totalOps) + 1 && hits == old(hits) + (if r.Some? then 1 else 0)
    {
      ghost var e := Entries();
      KeyCached(k);
      totalOps := totalOps + 1;
      if k in hashMap {
        hits := hits + 1;
        var n := hashMap[k];
        ghost var j := KeyIndex(e, k);
        ghost var s := list;
        MoveToHead(n, j);
        NodeMapMoved(hashMap, s, list, key);
        r := Some(value[n]);
      } else {
        r := None;
      }
    }

    /** `put`: count the operation; a cached key gets the new value and
        moves to the front; a new key first evicts the node before TAIL
        when the cache is full, then enters first in a new node. */
    method Put(k: string, v: string)
      requires Valid()
      modifies this
      ensures Valid() && capacity == old(capacity)
      ensures Entries() == AfterPut(old(Entries()), capacity, k, v)
      ensures totalOps == old(totalOps) + 1 && hits == old(hits)
    {
      totalOps := totalOps + 1;
      if k in hashMap {
        Update(k, v);
      } else {
        PutNew(k, v);
      }
    }

    /** The cached-key half of `put`: the node gets the new value and moves
        to the front. */
    method Update(k: string, v: string)
      requires Valid() && k in hashMap
      modifies this
      ensures Valid() && capacity == old(capacity) && totalOps == old(totalOps) && hits == old(hits)
      ensures Entries() == AfterPut(old(Entries()), capacity, k, v)
    {
      ghost var e := Entries();
      KeyCached(k);
      var n := hashMap[k];
      ghost var j := KeyIndex(e, k);
      UnrepeatedIsDistinct(list);
      ValueAt(list, j, key, value, v);
      value := value[n := v];
      PutCached(e, capacity, k, v, j);
      ghost var s := list;
      MoveToHead(n, j);
      NodeMapMoved(hashMap, s, list, key);
    }

    /** The new-key half of `put`: evict when the node map holds
        `capacity` keys or more, then insert. */
    method PutNew(k: string, v: string)
      requires Valid() && k !in hashMap
      modifies this
      ensures Valid() && capacity == old(capacity) && totalOps == old(totalOps) && hits == old(hits)
      ensures Entries() == AfterPut(old(Entries()), capacity, k, v)
    {
      ghost var e := Entries();
      KeyCached(k);
      UnrepeatedIsDistinct(list);
      MapSize(hashMap, list, key);
      if |hashMap| >= capacity {
        Evict();
      }
      assert Entries() == Kept(e, capacity, k);
      Insert(k, v);
    }

    /** The eviction step of a `put` of a new key into a full cache: unlink
        the node before TAIL, if any, and drop its key from the node map. */
    method Evict()
      requires Valid()
      modifies this
      ensures Valid() && hashMap.Keys <= old(hashMap.Keys)
      ensures old(list) == [] ==> Entries() == old(Entries()) && list == []
      ensures old(list) != [] ==> Entries() == old(Entries())[..|old(list)| - 1] && |list| == |old(list)| - 1
      ensures capacity == old(capacity) && totalOps == old(totalOps) && hits == old(hits) && nodes == old(nodes)
    {
      UnrepeatedIsDistinct(list);
      if list != [] {
        NodeMapEvict(hashMap, list, key);
        EntriesInit(list, key, value);
      }
      var tail := RemoveTail();
      if tail.Some? {
        hashMap := hashMap - {key[tail.value]};
      }
    }

    /** The insertion step of a `put` of a new key: a new node holding the
        entry, entered in the node map and linked in first. */
    method Insert(k: string, v: string)
      requires Valid() && k !in hashMap && |list| < Max(capacity, 1)
      modifies this
      ensures Valid() && Entries() == [Entry(k, v)] + old(Entries())
      ensures capacity == old(capacity) && totalOps == old(totalOps) && hits == old(hits)
    {
      ghost var rest, key0, value0 := list, key, value;
      var n := nodes;
      NodeMapInsert(hashMap, list, key, k, n);
      nodes, key, value, hashMap := nodes + 1, key[n := k], value[n := v], hashMap[k := n];
      AddToHead(n);
      EntriesPushed(rest, n, key0, value0, key, value);
    }

    /** The entries of a node pushed in front of rest, when the maps agree
        on rest. */
    static lemma EntriesPushed(rest: seq<nat>, n: nat, key0: map<nat, string>, value0: map<nat, string>,
                               key: map<nat, string>, value: map<nat, string>)
      requires forall x :: x in rest ==> x in key0 && x in value0 && x in key && x in value
      requires forall x :: x in rest ==> key[x] == key0[x] && value[x] == value0[x]
      requires n in key && n in value
      ensures EntriesOf([n] + rest, key, value) == [Entry(key[n], value[n])] + EntriesOf(rest, key0, value0)
    {
      assert ([n] + rest)[1..] == rest;
    }

    /** Dropping the last node drops the last entry. */
    static lemma EntriesInit(list: seq<nat>, key: map<nat, string>, value: map<nat, string>)
      requires list != [] && forall x :: x in list ==> x in key && x in value
      ensures forall x :: x in list[..|list| - 1] ==> x in key && x in value
      ensures EntriesOf(list[..|list| - 1], key, value) == EntriesOf(list, key, value)[..|list| - 1]
    {
      forall x | x in list[..|list| - 1]
        ensures x in list
      {
        InitOrLast(list, x);
      }
    }

    /** Replacing the value of the node at index j replaces the value of
        the entry at j and nothing else. */
    static lemma ValueAt(list: seq<nat>, j: int, key: map<nat, string>, value: map<nat, string>, v: string)
      requires Distinct(list) && 0 <= j < |list| && forall x :: x in list ==> x in key && x in value
      ensures EntriesOf(list, key, value[list[j] := v])
        == EntriesOf(list, key, value)[j := Entry(key[list[j]], v)]
    {
    }
  }

  // ---------------------------------------------------------------------
  // Replaying the recorded steps

  datatype Operation = GetOp | PutOp | InitOp | EvictOp

  /** A recorded step: its operation, and its key and value ("" when the
      step has none). */
  datatype Step = Step(operation: Operation, key: string, value: string)

  /** One replayed step: a `put` step with a key and a value is put
      again, a `get` step with a key is got again, and every other step
      changes nothing. */
  function Apply(capacity: nat, e: seq<Entry>, step: Step): seq<Entry> {
    if step.operation == PutOp && step.key != "" && step.value != "" then AfterPut(e, capacity, step.key, step.value)
    else if step.operation == GetOp && step.key != "" then AfterGet(e, step.key)
    else e
  }

  /** The entries after replaying steps into an empty cache. */
  function Replayed(capacity: nat, steps: seq<Step>): seq<Entry>
  {
    if steps == [] then [] else Apply(capacity, Replayed(capacity, steps[..|steps| - 1]), steps[|steps| - 1])
  }

  /** Replaying the first i steps is replaying the first i - 1 and then
      step i - 1. */
  lemma ReplayedPrefix(capacity: nat, steps: seq<Step>, i: int)
    requires 0 < i <= |steps|
    ensures Replayed(capacity, steps[..i]) == Apply(capacity, Replayed(capacity, steps[..i - 1]), steps[i - 1])
  {
    assert steps[..i][..i - 1] == steps[..i - 1];
  }

  /** Whatever the steps, the replayed cache caches no key twice and holds
      at most `capacity` entries (one, for a capacity of zero). */
  lemma {:induction false} ReplayedValid(capacity: nat, steps: seq<Step>)
    ensures DistinctKeys(Replayed(capacity, steps)) && |Replayed(capacity, steps)| <= Max(capacity, 1)
  {
    if steps != [] {
      ReplayedValid(capacity, steps[..|steps| - 1]);
      ApplyValid(capacity, Replayed(capacity, steps[..|steps| - 1]), steps[|steps| - 1]);
    }
  }

  /** One replayed step keeps the keys distinct and the size bound. */
  lemma ApplyValid(capacity: nat, e: seq<Entry>, step: Step)
    requires DistinctKeys(e) && |e| <= Max(capacity, 1)
    ensures DistinctKeys(Apply(capacity, e, step)) && |Apply(capacity, e, step)| <= Max(capacity, 1)
  {
    if step.operation == PutOp && step.key != "" && step.value != "" {
      PutLookup(e, capacity, step.key, step.value, step.key);
      PutSize(e, capacity, step.key, step.value);
    } else if step.operation == GetOp && step.key != "" {
      GetKeeps(e, step.key, step.key);
      assert |multiset(AfterGet(e, step.key))| == |multiset(e)|;
    }
  }

  /** `reconstructCache`: a new cache with the given capacity, into which
      the steps up to and including `currentStep` are replayed. */
  method Reconstruct(capacity: nat, steps: seq<Step>, currentStep: nat) returns (c: LRUCache)
    requires currentStep < |steps|
    ensures c.Valid() && c.capacity == capacity
    ensures c.Entries() == Replayed(capacity, steps[..currentStep + 1])
  {
    c := new LRUCache(capacity);
    var i := 0;
    while i <= currentStep
      invariant 0 <= i <= currentStep + 1
      invariant c.Valid() && c.capacity == capacity
      invariant c.Entries() == Replayed(capacity, steps[..i])
    {
      var step := steps[i];
      if step.operation == PutOp && step.key != "" && step.value != "" {
        c.Put(step.key, step.value);
      } else if step.operation == GetOp && step.key != "" {
        var _ := c.Get(step.key);
      }
      ReplayedPrefix(capacity, steps, i + 1);
      i := i + 1;
    }
  }
}
