/** The bloom-filter page: a fixed array of bits, up to four string
    hashes that pick a bit each, `add` setting the picked bits and
    `query` reporting whether they are all set, with a record of the
    filter after each step. */
module BloomFilterPage {
  import opened Common
  import opened StringHash

  // ---------------------------------------------------------------------
  // The hash functions

  /** JavaScript's `%`, whose remainder takes the sign of the dividend. */
  function JsRemainder(x: int, m: nat): (r: int)
    requires m > 0
    ensures -(m as int) < r < m && (x >= 0 ==> r == x % m)
  {
    if x >= 0 then x % m else -((-x) % m)
  }

  /** hash2's accumulator, `((hash << 5) + hash) + code` from 5381. It is
      never converted back to 32 bits, so it grows without bound. */
  function Hash2Value(s: string): int {
    if s == [] then 5381
    else var h := Hash2Value(s[..|s| - 1]); (ShiftLeft(h, 5) + h) + s[|s| - 1] as int
  }

  /** hash3's accumulator, `code + ((hash << 6) + (hash << 16) - hash)`. */
  function Hash3Value(s: string): int {
    if s == [] then 0
    else var h := Hash3Value(s[..|s| - 1]); s[|s| - 1] as int + ((ShiftLeft(h, 6) + ShiftLeft(h, 16)) - h)
  }

  /** hash4's accumulator, reduced modulo the size at every character. */
  function Hash4Value(s: string, size: nat): int
    requires size > 0
  {
    if s == [] then 0
    else var h := Hash4Value(s[..|s| - 1], size); JsRemainder((ShiftLeft(h, 3) + h) + s[|s| - 1] as int, size)
  }

  /** Hash number n (0 to 3) of s for a filter of the given size. */
  function HashAt(n: nat, s: string, size: nat): (r: nat)
    requires n < 4 && size > 0
    ensures r < size
  {
    match n
    case 0 => HashMod(s, size)
    case 1 => Abs(Hash2Value(s)) % size
    case 2 => Abs(Hash3Value(s)) % size
    case 3 => Abs(Hash4Value(s, size)) % size
  }

  /** The bits an element picks: the first min(k, 4) hashes. */
  function HashIndices(s: string, size: nat, k: nat): (r: seq<nat>)
    requires size > 0
    ensures |r| == Min(k, 4) && forall j :: 0 <= j < |r| ==> r[j] < size
  {
    seq(Min(k, 4), j requires 0 <= j < Min(k, 4) => HashAt(j, s, size))
  }

  /** The djb2 hash: the character codes as base-33 digits after a
      leading 5381. */
  function Djb2(s: string): int {
    if s == [] then 5381 else Djb2(s[..|s| - 1]) * 33 + s[|s| - 1] as int
  }

  /** The sdbm hash: the character codes as base-65599 digits. */
  function Sdbm(s: string): int {
    if s == [] then 0 else Sdbm(s[..|s| - 1]) * 65599 + s[|s| - 1] as int
  }

  /** hash2 agrees with djb2 modulo 2^32. */
  lemma {:induction false} Hash2IsDjb2(s: string)
    ensures Congruent(Hash2Value(s), Djb2(s))
  {
    if s != [] {
      var w := s[..|s| - 1];
      var c := s[|s| - 1] as int;
      var h := Hash2Value(w);
      Hash2IsDjb2(w);
      assert Pow2(5) == 32;
      CongruentScaled(h, Djb2(w), 32);
      ShiftLeftCongruent(h, 5);
      CongruentTrans(ShiftLeft(h, 5), h * 32, Djb2(w) * 32);
      CongruentSum(ShiftLeft(h, 5), Djb2(w) * 32, h, Djb2(w));
      CongruentSum(ShiftLeft(h, 5) + h, Djb2(w) * 32 + Djb2(w), c, c);
    }
  }

  /** hash3 agrees with sdbm modulo 2^32. */
  lemma {:induction false} Hash3IsSdbm(s: string)
    ensures Congruent(Hash3Value(s), Sdbm(s))
  {
    if s != [] {
      var w := s[..|s| - 1];
      var c := s[|s| - 1] as int;
      var h := Hash3Value(w);
      var p := Sdbm(w);
      Hash3IsSdbm(w);
      assert Pow2(6) == 64;
      assert Pow2(16) == 65536 by {
        assert Pow2(8) == 256;
      }
      CongruentScaled(h, p, 64);
      CongruentScaled(h, p, 65536);
      ShiftLeftCongruent(h, 6);
      ShiftLeftCongruent(h, 16);
      CongruentTrans(ShiftLeft(h, 6), h * 64, p * 64);
      CongruentTrans(ShiftLeft(h, 16), h * 65536, p * 65536);
      CongruentSum(ShiftLeft(h, 6), p * 64, ShiftLeft(h, 16), p * 65536);
      CongruentSum(ShiftLeft(h, 6) + ShiftLeft(h, 16), p * 64 + p * 65536, h, p);
      CongruentSum(c, c, (ShiftLeft(h, 6) + ShiftLeft(h, 16)) - h, p * 64 + p * 65536 - p);
    }
  }

  /** For sizes below 2^28 the shift in hash4 never wraps, and hash4 is
      the character codes as base-9 digits modulo the size. */
  lemma {:induction false} Hash4IsPolynomial(s: string, size: nat)
    requires 0 < size < 0x1000_0000
    ensures Hash4Value(s, size) == Polynomial(s, 9) % size
  {
    if s != [] {
      var w := s[..|s| - 1];
      var c := s[|s| - 1] as int;
      var h := Hash4Value(w, size);
      var p := Polynomial(w, 9);
      Hash4IsPolynomial(w, size);
      ShiftSmall(h, size);
      var v := (ShiftLeft(h, 3) + h) + c;
      assert v == 9 * h + c && v >= 0;
      assert Hash4Value(s, size) == JsRemainder(v, size);
      var q := p / size;
      DivModSplit(p, size);
      MulRegroup(size, q, 9);
      ModMultiple(9 * h + c, 9 * q, size);
    }
  }

  lemma MulRegroup(a: int, b: int, k: int)
    ensures k * (a * b) == a * (k * b)
  {
  }

  /** A value below 2^28 shifts left by 3 without wrapping. */
  lemma ShiftSmall(h: int, size: nat)
    requires 0 <= h < size < 0x1000_0000
    ensures ShiftLeft(h, 3) == h * 8
  {
    assert Pow2(3) == 8;
    Int32Unique(h, h);
    Int32Unique(h * 8, h * 8);
  }

  // ---------------------------------------------------------------------
  // The bits

  /** bits with every position in indices set. */
  function SetAll(bits: seq<bool>, indices: seq<nat>): (r: seq<bool>)
    ensures |r| == |bits|
  {
    seq(|bits|, i requires 0 <= i < |bits| => bits[i] || i in indices)
  }

  /** Every position in indices is a set bit. */
  predicate AllSet(bits: seq<bool>, indices: seq<nat>) {
    forall j :: 0 <= j < |indices| ==> indices[j] < |bits| && bits[indices[j]]
  }

  lemma AllSetStep(bits: seq<bool>, indices: seq<nat>, j: nat)
    requires j < |indices|
    ensures AllSet(bits, indices[..j + 1]) == (AllSet(bits, indices[..j]) && indices[j] < |bits| && bits[indices[j]])
  {
    assert indices[..j + 1] == indices[..j] + [indices[j]];
  }

  /** The bits of a fresh filter after adding elements in order. */
  function BitsAfter(size: nat, k: nat, elements: seq<string>): (r: seq<bool>)
    requires size > 0
    ensures |r| == size
  {
    if elements == [] then seq(size, _ => false)
    else SetAll(BitsAfter(size, k, elements[..|elements| - 1]), HashIndices(elements[|elements| - 1], size, k))
  }

  /** Adding only sets bits: a bit set after some adds stays set after
      more. */
  lemma {:induction false} BitsNeverCleared(size: nat, k: nat, elements: seq<string>, more: seq<string>, i: nat)
    requires size > 0 && i < size && BitsAfter(size, k, elements)[i]
    ensures BitsAfter(size, k, elements + more)[i]
    decreases |more|
  {
    if more != [] {
      var front := more[..|more| - 1];
      assert (elements + more)[..|elements + more| - 1] == elements + front;
      BitsNeverCleared(size, k, elements, front, i);
    } else {
      assert elements + more == elements;
    }
  }

  /** No false negatives: once added, an element is always reported as
      possibly present, whatever was added after it. */
  lemma {:induction false} NoFalseNegatives(size: nat, k: nat, elements: seq<string>, e: string)
    requires size > 0 && e in elements
    ensures AllSet(BitsAfter(size, k, elements), HashIndices(e, size, k))
  {
    var n := |elements|;
    var j :| 0 <= j < n && elements[j] == e;
    var upto := elements[..j + 1];
    var idx := HashIndices(e, size, k);
    assert upto[..j] == elements[..j] && upto[j] == e;
    assert elements == upto + elements[j + 1..];
    forall t | 0 <= t < |idx|
      ensures BitsAfter(size, k, elements)[idx[t]]
    {
      assert BitsAfter(size, k, upto)[idx[t]];
      BitsNeverCleared(size, k, upto, elements[j + 1..], idx[t]);
    }
  }

  /** A set bit is one some added element picked: a query is true only if
      each of its bits was picked by some added element. */
  lemma {:induction false} SetBitsPicked(size: nat, k: nat, elements: seq<string>, i: nat)
    requires size > 0 && i < size && BitsAfter(size, k, elements)[i]
    ensures exists e :: e in elements && i in HashIndices(e, size, k)
  {
    var n := |elements|;
    var last := elements[n - 1];
    if i !in HashIndices(last, size, k) {
      SetBitsPicked(size, k, elements[..n - 1], i);
      var e :| e in elements[..n - 1] && i in HashIndices(e, size, k);
      assert e in elements;
    }
  }

  // ---------------------------------------------------------------------
  // The filter

  datatype Operation = AddOp | QueryOp | InitOp

  /** One recorded step: its operation and element, a copy of the bits,
      the picked positions, the query's answer and the added count. The
      description and the false-positive estimate are left out. */
  datatype FilterStep = FilterStep(operation: Operation, element: Option<string>, bitArray: seq<bool>,
                                   hashIndices: seq<nat>, result: Option<bool>, elementsAdded: nat)

  class BloomFilter {
    const size: nat
    const numHashFunctions: nat
    const bitArray: array<bool>
    var steps: seq<FilterStep>
    var elementsAdded: nat
    /** The elements added so far. */
    ghost var added: seq<string>

    /** The bits are exactly those of a fresh filter after the added
        elements, and the counter counts them. */
    ghost predicate Valid()
      reads this, bitArray
    {
      0 < size && bitArray.Length == size
      && bitArray[..] == BitsAfter(size, numHashFunctions, added)
      && elementsAdded == |added| && |steps| > 0
    }

    /** A filter of size bits, all clear, with one init step. */
    constructor (size: nat, numHashFunctions: nat)
      requires size > 0
      ensures Valid() && this.size == size && this.numHashFunctions == numHashFunctions
      ensures added == [] && fresh(bitArray)
      ensures forall i :: 0 <= i < size ==> !bitArray[i]
      ensures steps == [FilterStep(InitOp, None, seq(size, _ => false), [], None, 0)]
    {
      this.size := size;
      this.numHashFunctions := numHashFunctions;
      var bits := new bool[size](_ => false);
      this.bitArray := bits;
      elementsAdded := 0;
      added := [];
      assert bits[..] == seq(size, _ => false);
      steps := [FilterStep(InitOp, None, bits[..], [], None, 0)];
    }

    /** hash1: the 32-bit string hash. */
    method Hash1(s: string) returns (r: nat)
      requires Valid()
      ensures r == HashAt(0, s, size)
    {
      var h := HashLoop(s);
      r := Abs(h) % size;
    }

    method Hash2(s: string) returns (r: nat)
      requires Valid()
      ensures r == HashAt(1, s, size)
    {
      var h := 5381;
      for i := 0 to |s|
        invariant h == Hash2Value(s[..i])
      {
        assert s[..i + 1][..i] == s[..i];
        h := (ShiftLeft(h, 5) + h) + s[i] as int;
      }
      assert s[..|s|] == s;
      r := Abs(h) % size;
    }

    method Hash3(s: string) returns (r: nat)
      requires Valid()
      ensures r == HashAt(2, s, size)
    {
      var h := 0;
      for i := 0 to |s|
        invariant h == Hash3Value(s[..i])
      {
        assert s[..i + 1][..i] == s[..i];
        h := s[i] as int + ((ShiftLeft(h, 6) + ShiftLeft(h, 16)) - h);
      }
      assert s[..|s|] == s;
      r := Abs(h) % size;
    }

    method Hash4(s: string) returns (r: nat)
      requires Valid()
      ensures r == HashAt(3, s, size)
    {
      var h := 0;
      for i := 0 to |s|
        invariant h == Hash4Value(s[..i], size)
      {
        assert s[..i + 1][..i] == s[..i];
        h := JsRemainder((ShiftLeft(h, 3) + h) + s[i] as int, size);
      }
      assert s[..|s|] == s;
      r := Abs(h) % size;
    }

    /** The positions picked by the first min(k, 4) hashes, in order. */
    method GetHashIndices(s: string) returns (indices: seq<nat>)
      requires Valid()
      ensures indices == HashIndices(s, size, numHashFunctions)
    {
      indices := [];
      for n := 0 to Min(numHashFunctions, 4)
        invariant indices == HashIndices(s, size, numHashFunctions)[..n]
      {
        var h;
        if n == 0 {
          h := Hash1(s);
        } else if n == 1 {
          h := Hash2(s);
        } else if n == 2 {
          h := Hash3(s);
        } else {
          h := Hash4(s);
        }
        indices := indices + [h];
      }
    }

    /** Sets the element's bits and counts it, recording the filter
        before and after. */
    method Add(element: string)
      requires Valid()
      modifies this, bitArray
      ensures Valid() && added == old(added) + [element]
      ensures bitArray[..] == SetAll(old(bitArray[..]), HashIndices(element, size, numHashFunctions))
      ensures elementsAdded == old(elementsAdded) + 1
      ensures steps == old(steps) + [
        FilterStep(AddOp, Some(element), old(bitArray[..]), HashIndices(element, size, numHashFunctions), None, old(elementsAdded)),
        FilterStep(AddOp, Some(element), bitArray[..], HashIndices(element, size, numHashFunctions), None, elementsAdded)]
    {
      var indices := GetHashIndices(element);
      steps := steps + [FilterStep(AddOp, Some(element), bitArray[..], indices, None, elementsAdded)];
      ghost var before := bitArray[..];
      for j := 0 to |indices|
        modifies bitArray
        invariant forall i :: 0 <= i < size ==> bitArray[i] == (before[i] || i in indices[..j])
      {
        assert indices[..j + 1] == indices[..j] + [indices[j]];
        bitArray[indices[j]] := true;
      }
      assert indices[..|indices|] == indices;
      elementsAdded := elementsAdded + 1;
      added := added + [element];
      assert added[..|added| - 1] == old(added);
      steps := steps + [FilterStep(AddOp, Some(element), bitArray[..], indices, None, elementsAdded)];
    }

    /** Reports whether every bit of the element is set: true for every
        element added so far, and true only if each of its bits was
        picked by some added element. */
    method Query(element: string) returns (allBitsSet: bool)
      requires Valid()
      modifies this
      ensures Valid() && added == old(added) && elementsAdded == old(elementsAdded)
      ensures allBitsSet == AllSet(bitArray[..], HashIndices(element, size, numHashFunctions))
      ensures element in added ==> allBitsSet
      ensures steps == old(steps) + [
        FilterStep(QueryOp, Some(element), bitArray[..], HashIndices(element, size, numHashFunctions), None, elementsAdded),
        FilterStep(QueryOp, Some(element), bitArray[..], HashIndices(element, size, numHashFunctions), Some(allBitsSet), elementsAdded)]
    {
      var indices := GetHashIndices(element);
      steps := steps + [FilterStep(QueryOp, Some(element), bitArray[..], indices, None, elementsAdded)];
      allBitsSet := true;
      ghost var bits := bitArray[..];
      for j := 0 to |indices|
        modifies {}
        invariant allBitsSet == AllSet(bits, indices[..j])
      {
        AllSetStep(bits, indices, j);
        allBitsSet := allBitsSet && bitArray[indices[j]];
      }
      assert indices[..|indices|] == indices;
      if element in added {
        NoFalseNegatives(size, numHashFunctions, added, element);
      }
      steps := steps + [FilterStep(QueryOp, Some(element), bitArray[..], indices, Some(allBitsSet), elementsAdded)];
    }
  }
}
