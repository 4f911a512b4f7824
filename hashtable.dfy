/** The hash-table visualizer in its chaining mode: a table of chains,
    the division hash (the sum of the key's character codes modulo the
    table size), insert, search and remove on the chain of the key's hash,
    and resizing by rehashing every entry. */
module HashTableVisualizer {
  import opened Common

  /** A stored entry; the highlight flag is left out. */
  datatype Entry = Entry(key: string, value: string, hash: nat, isCollision: bool)

  type Table = seq<seq<Entry>>

  // ---------------------------------------------------------------------
  // The division hash

  /** The sum of the character codes of key. */
  function CodeSum(key: string): nat {
    if key == [] then 0 else CodeSum(key[..|key| - 1]) + key[|key| - 1] as nat
  }

  /** `hashFunctions.division`: the code sum modulo the table size. */
  function DivisionHash(key: string, size: nat): (r: nat)
    requires size > 0
    ensures r < size
  {
    CodeSum(key) % size
  }

  /** The accumulator loop of the division hash. */
  method HashKey(key: string, size: nat) returns (h: nat)
    requires size > 0
    ensures h == DivisionHash(key, size) && h < size
  {
    var sum: nat := 0;
    for i := 0 to |key|
      invariant sum == CodeSum(key[..i])
    {
      assert key[..i + 1][..i] == key[..i];
      sum := sum + key[i] as nat;
    }
    assert key[..|key|] == key;
    h := sum % size;
  }

  lemma {:induction false} CodeSumAppend(a: string, b: string)
    ensures CodeSum(a + b) == CodeSum(a) + CodeSum(b)
    decreases |b|
  {
    if b == [] {
      assert a + b == a;
    } else {
      assert (a + b)[..|a + b| - 1] == a + b[..|b| - 1];
      CodeSumAppend(a, b[..|b| - 1]);
    }
  }

  /** The hash ignores the order of the characters: keys that are
      rearrangements of each other always land in the same chain. */
  lemma {:induction false} AnagramsCollide(a: string, b: string, size: nat)
    requires size > 0 && multiset(a) == multiset(b)
    ensures DivisionHash(a, size) == DivisionHash(b, size)
  {
    SameCodeSum(a, b);
  }

  lemma {:induction false} SameCodeSum(a: string, b: string)
    requires multiset(a) == multiset(b)
    ensures CodeSum(a) == CodeSum(b)
    decreases |a|
  {
    if a != [] {
      var c := a[0];
      assert c in multiset(b);
      var j :| 0 <= j < |b| && b[j] == c;
      var rest := b[..j] + b[j + 1..];
      assert b == b[..j] + [c] + b[j + 1..];
      assert a == [c] + a[1..];
      assert multiset(b) == multiset(b[..j]) + multiset{c} + multiset(b[j + 1..]);
      assert multiset(a) == multiset{c} + multiset(a[1..]);
      assert multiset(rest) == multiset(b[..j]) + multiset(b[j + 1..]);
      assert multiset(a[1..]) == multiset(a) - multiset{c};
      assert multiset(rest) == multiset(b) - multiset{c};
      SameCodeSum(a[1..], rest);
      CodeSumAppend([c], a[1..]);
      CodeSumAppend(b[..j] + [c], b[j + 1..]);
      CodeSumAppend(b[..j], [c]);
      CodeSumAppend(b[..j], b[j + 1..]);
      assert CodeSum([c]) == c as nat by {
        assert [c][..0] == [];
      }
    } else {
      assert b == [];
    }
  }

  // ---------------------------------------------------------------------
  // Chains

  /** `chain.findIndex(entry => entry.key === key)`. */
  function FindIndex(chain: seq<Entry>, key: string): (r: int)
    ensures -1 <= r < |chain|
    ensures r >= 0 ==> chain[r].key == key
    ensures r == -1 <==> forall j :: 0 <= j < |chain| ==> chain[j].key != key
  {
    if chain == [] then -1
    else if chain[0].key == key then 0
    else
      var t := FindIndex(chain[1..], key);
      assert forall j :: 1 <= j < |chain| ==> chain[j] == chain[1..][j - 1];
      if t == -1 then -1 else t + 1
  }

  /** The value of the first entry of es with that key. */
  function FirstValue(es: seq<Entry>, key: string): Option<string> {
    if es == [] then None
    else if es[0].key == key then Some(es[0].value)
    else FirstValue(es[1..], key)
  }

  /** No two entries share a key. */
  predicate KeysDistinct(es: seq<Entry>) {
    forall i, j :: 0 <= i < j < |es| ==> es[i].key != es[j].key
  }

  lemma {:induction false} FirstValueAppend(a: seq<Entry>, b: seq<Entry>, key: string)
    ensures FirstValue(a + b, key) == if FirstValue(a, key).Some? then FirstValue(a, key) else FirstValue(b, key)
  {
    if a != [] {
      assert (a + b)[0] == a[0] && (a + b)[1..] == a[1..] + b;
      FirstValueAppend(a[1..], b, key);
    } else {
      assert a + b == b;
    }
  }

  /** The first value is that of the entry findIndex finds. */
  lemma {:induction false} FirstValueAt(es: seq<Entry>, key: string)
    ensures FirstValue(es, key) == if FindIndex(es, key) == -1 then None else Some(es[FindIndex(es, key)].value)
  {
    if es != [] && es[0].key != key {
      FirstValueAt(es[1..], key);
    }
  }

  /** With distinct keys, the first value of a key is the value of the
      one entry that has it. */
  lemma {:induction false} FirstValueUnique(es: seq<Entry>, i: int)
    requires KeysDistinct(es) && 0 <= i < |es|
    ensures FirstValue(es, es[i].key) == Some(es[i].value)
  {
    if i > 0 {
      FirstValueUnique(es[1..], i - 1);
    }
  }

  /** Replacing an entry that does not carry key by another that does not
      keeps the first value of key. */
  lemma {:induction false} FirstValueReplace(es: seq<Entry>, i: int, e: Entry, key: string)
    requires 0 <= i < |es| && es[i].key != key && e.key != key
    ensures FirstValue(es[i := e], key) == FirstValue(es, key)
  {
    if i > 0 {
      assert es[i := e][1..] == es[1..][i - 1 := e];
      FirstValueReplace(es[1..], i - 1, e, key);
    }
  }

  // ---------------------------------------------------------------------
  // The table

  /** All entries, chain by chain, as `forEach` collects them. */
  function Flatten(table: Table): seq<Entry> {
    if table == [] then [] else Flatten(table[..|table| - 1]) + table[|table| - 1]
  }

  /** `table.reduce((sum, chain) => sum + chain.length, 0)`. */
  function Total(table: Table): nat {
    if table == [] then 0 else Total(table[..|table| - 1]) + |table[|table| - 1]|
  }

  /** The entry count counts the collected entries. */
  lemma {:induction false} TotalCountsEntries(table: Table)
    ensures Total(table) == |Flatten(table)|
  {
    if table != [] {
      TotalCountsEntries(table[..|table| - 1]);
    }
  }

  /** Replacing one chain changes the count by the difference in length. */
  lemma {:induction false} TotalReplace(table: Table, h: int, c: seq<Entry>)
    requires 0 <= h < |table|
    ensures Total(table[h := c]) == Total(table) - |table[h]| + |c|
  {
    var n := |table|;
    var t := table[h := c];
    if h == n - 1 {
      assert t[..n - 1] == table[..n - 1];
    } else {
      assert t[..n - 1] == table[..n - 1][h := c];
      TotalReplace(table[..n - 1], h, c);
    }
  }

  /** Every entry sits in the chain of its key's hash with that hash
      recorded, and no chain holds a key twice. */
  ghost predicate WellFormed(table: Table) {
    |table| > 0
    && (forall i, j :: 0 <= i < |table| && 0 <= j < |table[i]| ==>
          DivisionHash(table[i][j].key, |table|) == i && table[i][j].hash == i)
    && forall i :: 0 <= i < |table| ==> KeysDistinct(table[i])
  }

  /** The value stored under key, looked up in the chain of its hash. */
  function Lookup(table: Table, key: string): Option<string>
    requires |table| > 0
  {
    FirstValue(table[DivisionHash(key, |table|)], key)
  }

  /** `Array(size).fill(null).map(() => [])`. */
  function EmptyTable(size: nat): (t: Table)
    requires size > 0
    ensures WellFormed(t) && Total(t) == 0 && forall key :: Lookup(t, key) == None
  {
    var t := seq(size, _ => []);
    TotalEmpty(t);
    t
  }

  lemma {:induction false} TotalEmpty(t: Table)
    requires forall i :: 0 <= i < |t| ==> t[i] == []
    ensures Total(t) == 0
  {
    if t != [] {
      TotalEmpty(t[..|t| - 1]);
    }
  }

  // ---------------------------------------------------------------------
  // Insert

  /** Chaining insert: an existing key has its entry replaced in place;
      otherwise the entry joins the end of the chain, marked as a
      collision when the chain was not empty. */
  function InsertChained(table: Table, key: string, value: string): (r: Table)
    requires |table| > 0
    ensures |r| == |table|
  {
    var h := DivisionHash(key, |table|);
    var c := table[h];
    var i := FindIndex(c, key);
    if i != -1 then table[h := c[i := Entry(key, value, h, false)]]
    else table[h := c + [Entry(key, value, h, |c| > 0)]]
  }

  /** Inserting keeps the table well formed. */
  lemma InsertWellFormed(table: Table, key: string, value: string)
    requires WellFormed(table)
    ensures WellFormed(InsertChained(table, key, value))
  {
    var h := DivisionHash(key, |table|);
    var c := table[h];
    var i := FindIndex(c, key);
    var e := Entry(key, value, h, i == -1 && |c| > 0);
    var c' := if i != -1 then c[i := e] else c + [e];
    assert InsertChained(table, key, value) == table[h := c'];
    assert KeysDistinct(c');
  }

  /** After inserting, the key has the new value and every other key
      keeps its value. */
  lemma InsertLookup(table: Table, key: string, value: string, other: string)
    requires WellFormed(table)
    ensures Lookup(InsertChained(table, key, value), key) == Some(value)
    ensures other != key ==> Lookup(InsertChained(table, key, value), other) == Lookup(table, other)
  {
    var n := |table|;
    var h := DivisionHash(key, n);
    var c := table[h];
    var i := FindIndex(c, key);
    var t := InsertChained(table, key, value);
    InsertWellFormed(table, key, value);
    if i != -1 {
      var e := Entry(key, value, h, false);
      assert t[h] == c[i := e];
      FirstValueUnique(c[i := e], i);
      if other != key && DivisionHash(other, n) == h {
        FirstValueReplace(c, i, e, other);
      }
    } else {
      var e := Entry(key, value, h, |c| > 0);
      assert t[h] == c + [e];
      FirstValueAt(c, key);
      FirstValueAppend(c, [e], key);
      if other != key && DivisionHash(other, n) == h {
        FirstValueAppend(c, [e], other);
      }
    }
  }

  /** Inserting adds one entry for a new key and none for an existing one. */
  lemma InsertCount(table: Table, key: string, value: string)
    requires WellFormed(table)
    ensures Total(InsertChained(table, key, value)) == Total(table) + if Lookup(table, key).None? then 1 else 0
  {
    var h := DivisionHash(key, |table|);
    var c := table[h];
    var i := FindIndex(c, key);
    FirstValueAt(c, key);
    if i != -1 {
      TotalReplace(table, h, c[i := Entry(key, value, h, false)]);
    } else {
      TotalReplace(table, h, c + [Entry(key, value, h, |c| > 0)]);
    }
  }

  // ---------------------------------------------------------------------
  // Remove

  /** Chaining remove: the entry with the key is spliced out of its chain,
      if there is one. */
  function RemoveChained(table: Table, key: string): (r: Table)
    requires |table| > 0
    ensures |r| == |table|
  {
    var h := DivisionHash(key, |table|);
    var c := table[h];
    var i := FindIndex(c, key);
    if i == -1 then table else table[h := c[..i] + c[i + 1..]]
  }

  /** The chain without entry i. */
  lemma SpliceEntries(c: seq<Entry>, i: int, c': seq<Entry>)
    requires KeysDistinct(c) && 0 <= i < |c| && c' == c[..i] + c[i + 1..]
    ensures KeysDistinct(c')
    ensures forall j :: 0 <= j < |c'| ==> c'[j] == (if j < i then c[j] else c[j + 1]) && c'[j].key != c[i].key
  {
    assert forall j :: 0 <= j < |c'| ==> c'[j] == if j < i then c[j] else c[j + 1];
  }

  /** Removing keeps the table well formed. */
  lemma RemoveWellFormed(table: Table, key: string)
    requires WellFormed(table)
    ensures WellFormed(RemoveChained(table, key))
  {
    var h := DivisionHash(key, |table|);
    var c := table[h];
    var i := FindIndex(c, key);
    if i != -1 {
      SpliceEntries(c, i, c[..i] + c[i + 1..]);
    }
  }

  /** Splicing out an entry of another key keeps the first value of key. */
  lemma FirstValueSplice(c: seq<Entry>, i: int, key: string)
    requires 0 <= i < |c| && c[i].key != key
    ensures FirstValue(c[..i] + c[i + 1..], key) == FirstValue(c, key)
  {
    assert c == c[..i] + ([c[i]] + c[i + 1..]);
    FirstValueAppend(c[..i], [c[i]] + c[i + 1..], key);
    FirstValueAppend([c[i]], c[i + 1..], key);
    FirstValueAppend(c[..i], c[i + 1..], key);
  }

  /** After removing, the key is gone and every other key keeps its value. */
  lemma RemoveLookup(table: Table, key: string, other: string)
    requires WellFormed(table)
    ensures Lookup(RemoveChained(table, key), key) == None
    ensures other != key ==> Lookup(RemoveChained(table, key), other) == Lookup(table, other)
  {
    var n := |table|;
    var h := DivisionHash(key, n);
    var c := table[h];
    var i := FindIndex(c, key);
    FirstValueAt(c, key);
    if i != -1 {
      var c' := c[..i] + c[i + 1..];
      assert RemoveChained(table, key) == table[h := c'];
      SpliceEntries(c, i, c');
      FirstValueAbsent(c', key);
      if other != key && DivisionHash(other, n) == h {
        FirstValueSplice(c, i, other);
      }
    }
  }

  /** Removing deletes one entry exactly when the key was present. */
  lemma RemoveCount(table: Table, key: string)
    requires WellFormed(table)
    ensures Total(RemoveChained(table, key)) == Total(table) - if Lookup(table, key).Some? then 1 else 0
  {
    var h := DivisionHash(key, |table|);
    var c := table[h];
    var i := FindIndex(c, key);
    FirstValueAt(c, key);
    if i != -1 {
      TotalReplace(table, h, c[..i] + c[i + 1..]);
    }
  }

  // ---------------------------------------------------------------------
  // Resize

  /** The rehashing loop: each entry, in order, joins the end of the chain
      of its hash for the new size, with that hash recorded. */
  function Rehash(entries: seq<Entry>, size: nat): (r: Table)
    requires size > 0
    ensures |r| == size
  {
    if entries == [] then seq(size, _ => [])
    else
      var t := Rehash(entries[..|entries| - 1], size);
      var e := entries[|entries| - 1];
      var h := DivisionHash(e.key, size);
      t[h := t[h] + [e.(hash := h)]]
  }

  /** The entries of es that hash to h for size, in order, with h recorded. */
  function Bucket(es: seq<Entry>, size: nat, h: nat): seq<Entry>
    requires size > 0
  {
    if es == [] then []
    else (if DivisionHash(es[0].key, size) == h then [es[0].(hash := h)] else []) + Bucket(es[1..], size, h)
  }

  lemma {:induction false} BucketAppend(a: seq<Entry>, e: Entry, size: nat, h: nat)
    requires size > 0
    ensures Bucket(a + [e], size, h) == Bucket(a, size, h) + if DivisionHash(e.key, size) == h then [e.(hash := h)] else []
  {
    if a != [] {
      assert (a + [e])[1..] == a[1..] + [e];
      BucketAppend(a[1..], e, size, h);
    } else {
      assert Bucket([e], size, h) == (if DivisionHash(e.key, size) == h then [e.(hash := h)] else []) + Bucket([], size, h);
    }
  }

  /** Chain h of the rehashed table is the bucket of h. */
  lemma {:induction false} RehashChains(es: seq<Entry>, size: nat, h: nat)
    requires size > 0 && h < size
    ensures Rehash(es, size)[h] == Bucket(es, size, h)
  {
    if es != [] {
      var front := es[..|es| - 1];
      var e := es[|es| - 1];
      RehashChains(front, size, h);
      assert es == front + [e];
      BucketAppend(front, e, size, h);
    }
  }

  /** A bucket holds entries of es that hash to h, with h recorded. */
  lemma {:induction false} BucketMember(es: seq<Entry>, size: nat, h: nat, x: Entry)
    requires size > 0 && x in Bucket(es, size, h)
    ensures x.hash == h && DivisionHash(x.key, size) == h
    ensures exists j :: 0 <= j < |es| && es[j].key == x.key
  {
    if DivisionHash(es[0].key, size) == h && x == es[0].(hash := h) {
    } else {
      BucketMember(es[1..], size, h, x);
      var j :| 0 <= j < |es[1..]| && es[1..][j].key == x.key;
      assert es[j + 1].key == x.key;
    }
  }

  /** A bucket of entries with distinct keys has distinct keys. */
  lemma {:induction false} BucketDistinct(es: seq<Entry>, size: nat, h: nat)
    requires size > 0 && KeysDistinct(es)
    ensures KeysDistinct(Bucket(es, size, h))
  {
    if es != [] {
      BucketDistinct(es[1..], size, h);
      var b := Bucket(es[1..], size, h);
      if DivisionHash(es[0].key, size) == h {
        forall j | 0 <= j < |b|
          ensures b[j].key != es[0].key
        {
          BucketMember(es[1..], size, h, b[j]);
        }
        var r := [es[0].(hash := h)] + b;
        assert forall j :: 1 <= j < |r| ==> r[j] == b[j - 1];
      } else {
        assert Bucket(es, size, h) == b;
      }
    }
  }

  /** Looking up a key in its bucket finds its first entry in es. */
  lemma {:induction false} BucketFirstValue(es: seq<Entry>, size: nat, key: string)
    requires size > 0
    ensures FirstValue(Bucket(es, size, DivisionHash(key, size)), key) == FirstValue(es, key)
  {
    if es != [] {
      var h := DivisionHash(key, size);
      BucketFirstValue(es[1..], size, key);
      var b := Bucket(es[1..], size, h);
      if DivisionHash(es[0].key, size) == h {
        FirstValueAppend([es[0].(hash := h)], b, key);
      } else {
        assert Bucket(es, size, h) == b;
      }
    }
  }

  /** A key no entry carries has no value. */
  lemma {:induction false} FirstValueAbsent(es: seq<Entry>, key: string)
    requires forall j :: 0 <= j < |es| ==> es[j].key != key
    ensures FirstValue(es, key) == None
  {
    if es != [] {
      FirstValueAbsent(es[1..], key);
    }
  }

  /** The chains before m hold no entry of a later chain's key. */
  lemma {:induction false} FlattenPrefixFirstValue(table: Table, key: string, m: int)
    requires WellFormed(table) && 0 <= m <= |table|
    ensures FirstValue(Flatten(table[..m]), key) == if m > DivisionHash(key, |table|) then Lookup(table, key) else None
  {
    if m > 0 {
      var c := table[m - 1];
      assert table[..m][..m - 1] == table[..m - 1];
      FlattenPrefixFirstValue(table, key, m - 1);
      FirstValueAppend(Flatten(table[..m - 1]), c, key);
      if m - 1 != DivisionHash(key, |table|) {
        FirstValueAbsent(c, key);
      }
    }
  }

  /** In a well-formed table, the first entry of a key among all entries
      is the one the lookup finds. */
  lemma FlattenFirstValue(table: Table, key: string)
    requires WellFormed(table)
    ensures FirstValue(Flatten(table), key) == Lookup(table, key)
  {
    FlattenPrefixFirstValue(table, key, |table|);
    assert table[..|table|] == table;
  }

  /** The entries of the chains before m have distinct keys hashing below m. */
  lemma {:induction false} FlattenPrefixDistinct(table: Table, m: int)
    requires WellFormed(table) && 0 <= m <= |table|
    ensures KeysDistinct(Flatten(table[..m]))
    ensures forall k :: 0 <= k < |Flatten(table[..m])| ==> DivisionHash(Flatten(table[..m])[k].key, |table|) < m
  {
    if m > 0 {
      var c := table[m - 1];
      assert table[..m][..m - 1] == table[..m - 1];
      FlattenPrefixDistinct(table, m - 1);
      var f := Flatten(table[..m - 1]);
      assert Flatten(table[..m]) == f + c;
      assert forall k :: |f| <= k < |f + c| ==> (f + c)[k] == c[k - |f|];
    }
  }

  /** A well-formed table holds every key at most once. */
  lemma FlattenDistinct(table: Table)
    requires WellFormed(table)
    ensures KeysDistinct(Flatten(table))
  {
    FlattenPrefixDistinct(table, |table|);
    assert table[..|table|] == table;
  }

  /** Rehashing keeps every entry. */
  lemma {:induction false} RehashCount(es: seq<Entry>, size: nat)
    requires size > 0
    ensures Total(Rehash(es, size)) == |es|
  {
    if es == [] {
      TotalEmpty(Rehash(es, size));
    } else {
      var t := Rehash(es[..|es| - 1], size);
      var e := es[|es| - 1];
      var h := DivisionHash(e.key, size);
      RehashCount(es[..|es| - 1], size);
      TotalReplace(t, h, t[h] + [e.(hash := h)]);
    }
  }

  /** Resizing rehashes into a well-formed table of the new size that holds
      the same number of entries and the same value for every key. */
  lemma RehashPreserves(table: Table, size: nat)
    requires WellFormed(table) && size > 0
    ensures WellFormed(Rehash(Flatten(table), size))
    ensures Total(Rehash(Flatten(table), size)) == Total(table)
    ensures forall key :: Lookup(Rehash(Flatten(table), size), key) == Lookup(table, key)
  {
    var f := Flatten(table);
    var t := Rehash(f, size);
    FlattenDistinct(table);
    forall h | 0 <= h < size
      ensures KeysDistinct(t[h])
      ensures forall j :: 0 <= j < |t[h]| ==> DivisionHash(t[h][j].key, size) == h && t[h][j].hash == h
    {
      RehashChains(f, size, h);
      BucketDistinct(f, size, h);
      forall j | 0 <= j < |t[h]|
        ensures DivisionHash(t[h][j].key, size) == h && t[h][j].hash == h
      {
        BucketMember(f, size, h, t[h][j]);
      }
    }
    RehashCount(f, size);
    TotalCountsEntries(table);
    forall key
      ensures Lookup(t, key) == Lookup(table, key)
    {
      RehashChains(f, size, DivisionHash(key, size));
      BucketFirstValue(f, size, key);
      FlattenFirstValue(table, key);
    }
  }

  /** The `reduce` over the chains. */
  method CountEntries(table: Table) returns (total: nat)
    ensures total == Total(table)
  {
    total := 0;
    for i := 0 to |table|
      invariant total == Total(table[..i])
    {
      assert table[..i + 1][..i] == table[..i];
      total := total + |table[i]|;
    }
    assert table[..|table|] == table;
  }

  /** The nested `forEach` that collects the entries chain by chain. */
  method CollectEntries(table: Table) returns (entries: seq<Entry>)
    ensures entries == Flatten(table)
  {
    entries := [];
    for i := 0 to |table|
      invariant entries == Flatten(table[..i])
    {
      assert table[..i + 1][..i] == table[..i];
      var chain := table[i];
      ghost var collected := entries;
      for j := 0 to |chain|
        invariant entries == collected + chain[..j]
      {
        assert chain[..j + 1] == chain[..j] + [chain[j]];
        entries := entries + [chain[j]];
      }
      assert chain[..|chain|] == chain;
    }
    assert table[..|table|] == table;
  }

  /** The `forEach` that pushes every entry onto the chain of its new hash. */
  method RehashAll(entries: seq<Entry>, size: nat) returns (rehashed: Table)
    requires size > 0
    ensures rehashed == Rehash(entries, size)
  {
    rehashed := seq(size, _ => []);
    for k := 0 to |entries|
      invariant |rehashed| == size && rehashed == Rehash(entries[..k], size)
    {
      assert entries[..k + 1][..k] == entries[..k];
      var e := entries[k];
      var h := HashKey(e.key, size);
      rehashed := rehashed[h := rehashed[h] + [e.(hash := h)]];
    }
    assert entries[..|entries|] == entries;
  }

  // ---------------------------------------------------------------------
  // The component state

  /** The hash table the visualizer holds: its chains, its size and its
      load factor. */
  class HashTable {
    var table: Table
    var size: nat
    var loadFactor: real

    ghost predicate Valid()
      reads this
    {
      size == |table| && WellFormed(table) && loadFactor == Total(table) as real / size as real
    }

    /** Seven empty chains and load factor 0. */
    constructor ()
      ensures Valid() && size == 7 && table == EmptyTable(7) && loadFactor == 0.0
    {
      table := EmptyTable(7);
      size := 7;
      loadFactor := 0.0;
    }

    /** `reset`: empty chains of the same size. */
    method Reset()
      requires Valid()
      modifies this
      ensures Valid() && size == old(size) && table == EmptyTable(size) && loadFactor == 0.0
    {
      table := EmptyTable(size);
      loadFactor := 0.0;
    }

    /** `insert` with chaining: a blank key or value changes nothing;
        otherwise the key maps to value, every other key keeps its value,
        the count grows by one for a new key, and the load factor is the
        new count over the size. */
    method Insert(key: string, value: string)
      requires Valid()
      modifies this
      ensures Valid() && size == old(size)
      ensures Blank(key) || Blank(value) ==> table == old(table) && loadFactor == old(loadFactor)
      ensures !Blank(key) && !Blank(value) ==>
        table == InsertChained(old(table), key, value)
        && Lookup(table, key) == Some(value)
        && (forall other :: other != key ==> Lookup(table, other) == Lookup(old(table), other))
        && Total(table) == Total(old(table)) + (if Lookup(old(table), key).None? then 1 else 0)
    {
      if Blank(key) || Blank(value) {
        return;
      }
      var h := HashKey(key, size);
      var chain := table[h];
      var existing := FindIndex(chain, key);
      if existing != -1 {
        chain := chain[existing := Entry(key, value, h, false)];
      } else {
        chain := chain + [Entry(key, value, h, |chain| > 0)];
      }
      ghost var before := table;
      table := table[h := chain];
      assert table == InsertChained(before, key, value);
      InsertWellFormed(before, key, value);
      InsertCount(before, key, value);
      InsertLookup(before, key, value, key);
      forall other | other != key
        ensures Lookup(table, other) == Lookup(before, other)
      {
        InsertLookup(before, key, value, other);
      }
      var total := CountEntries(table);
      loadFactor := total as real / size as real;
    }

    /** `search` with chaining: the value found, or None for a blank or
        missing key; the table is left as it is. */
    method Search(key: string) returns (found: Option<string>)
      requires Valid()
      ensures found == if Blank(key) then None else Lookup(table, key)
    {
      if Blank(key) {
        return None;
      }
      var h := HashKey(key, size);
      var chain := table[h];
      var i := FindIndex(chain, key);
      FirstValueAt(chain, key);
      found := if i == -1 then None else Some(chain[i].value);
    }

    /** `remove` with chaining: a blank key changes nothing; otherwise the
        key is gone, every other key keeps its value, the count drops by
        one when the key was present, and the load factor is recomputed. */
    method Remove(key: string)
      requires Valid()
      modifies this
      ensures Valid() && size == old(size)
      ensures Blank(key) ==> table == old(table) && loadFactor == old(loadFactor)
      ensures !Blank(key) ==>
        table == RemoveChained(old(table), key)
        && Lookup(table, key) == None
        && (forall other :: other != key ==> Lookup(table, other) == Lookup(old(table), other))
        && Total(table) == Total(old(table)) - (if Lookup(old(table), key).Some? then 1 else 0)
    {
      if Blank(key) {
        return;
      }
      var h := HashKey(key, size);
      var chain := table[h];
      var i := FindIndex(chain, key);
      ghost var before := table;
      if i != -1 {
        table := table[h := chain[..i] + chain[i + 1..]];
      }
      assert table == RemoveChained(before, key);
      RemoveCount(before, key);
      RemoveWellFormed(before, key);
      RemoveLookup(before, key, key);
      forall other | other != key
        ensures Lookup(table, other) == Lookup(before, other)
      {
        RemoveLookup(before, key, other);
      }
      var total := CountEntries(table);
      loadFactor := total as real / size as real;
    }

    /** `resizeTable`: every entry is collected chain by chain and pushed
        onto the chain of its hash for the new size; no entry is lost and
        every key keeps its value. */
    method Resize(newSize: nat)
      requires Valid() && newSize > 0
      modifies this
      ensures Valid() && size == newSize
      ensures table == Rehash(Flatten(old(table)), newSize)
      ensures Total(table) == Total(old(table))
      ensures forall key :: Lookup(table, key) == Lookup(old(table), key)
    {
      var entries := CollectEntries(table);
      var rehashed := RehashAll(entries, newSize);
      RehashPreserves(table, newSize);
      TotalCountsEntries(table);
      table := rehashed;
      size := newSize;
      loadFactor := |entries| as real / newSize as real;
    }
  }
}
