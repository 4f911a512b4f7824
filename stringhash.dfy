/** JavaScript's 32-bit integer arithmetic as the string hashes of the
    bloom-filter and consistent-hashing pages use it: `x << n` and
    `x & x` convert their operands to signed 32-bit integers, and the
    shift wraps around. */
module StringHash {
  const TWO31: int := 0x8000_0000
  const TWO32: int := 0x1_0000_0000

  /** ECMAScript ToInt32 on an integer: the value congruent to x modulo
      2^32 in [-2^31, 2^31). */
  function ToInt32(x: int): (r: int)
    ensures -TWO31 <= r < TWO31 && Congruent(x, r)
  {
    var m := x % TWO32;
    if m >= TWO31 then m - TWO32 else m
  }

  /** a and b agree modulo 2^32. */
  predicate Congruent(a: int, b: int) {
    (a - b) % TWO32 == 0
  }

  /** 2 to the power n. */
  function Pow2(n: nat): (p: nat)
    ensures p >= 1
  {
    if n == 0 then 1 else 2 * Pow2(n - 1)
  }

  /** `x << n` for a shift count below 32. */
  function ShiftLeft(x: int, n: nat): (r: int)
    requires n < 32
    ensures -TWO31 <= r < TWO31
  {
    ToInt32(ToInt32(x) * Pow2(n))
  }

  /** Shifting left by n multiplies by 2^n modulo 2^32. */
  lemma ShiftLeftCongruent(x: int, n: nat)
    requires n < 32
    ensures Congruent(ShiftLeft(x, n), x * Pow2(n))
  {
    var y := ToInt32(x);
    var p := Pow2(n);
    CongruentSymm(x, y);
    CongruentScaled(y, x, p);
    CongruentSymm(y * p, ToInt32(y * p));
    CongruentTrans(ToInt32(y * p), y * p, x * p);
  }

  /** `Math.abs`. */
  function Abs(x: int): nat {
    if x < 0 then -x else x
  }

  /** Two values of the 32-bit range that agree modulo 2^32 are equal, so
      ToInt32 is the only such value. */
  lemma Int32Unique(x: int, r: int)
    requires -TWO31 <= r < TWO31 && Congruent(x, r)
    ensures r == ToInt32(x)
  {
    var t := ToInt32(x);
    CongruentSymm(x, r);
    CongruentTrans(r, x, t);
    var q := (r - t) / TWO32;
    assert r - t == TWO32 * q;
  }

  lemma CongruentSymm(a: int, b: int)
    requires Congruent(a, b)
    ensures Congruent(b, a)
  {
    var q := (a - b) / TWO32;
    assert a - b == TWO32 * q;
    assert b - a == TWO32 * -q;
  }

  lemma CongruentTrans(a: int, b: int, c: int)
    requires Congruent(a, b) && Congruent(b, c)
    ensures Congruent(a, c)
  {
    var q1 := (a - b) / TWO32;
    var q2 := (b - c) / TWO32;
    assert a - b == TWO32 * q1 && b - c == TWO32 * q2;
    assert a - c == TWO32 * (q1 + q2);
  }

  lemma CongruentSum(a: int, b: int, c: int, d: int)
    requires Congruent(a, b) && Congruent(c, d)
    ensures Congruent(a + c, b + d) && Congruent(a - c, b - d)
  {
    var q1 := (a - b) / TWO32;
    var q2 := (c - d) / TWO32;
    assert a - b == TWO32 * q1 && c - d == TWO32 * q2;
    assert (a + c) - (b + d) == TWO32 * (q1 + q2);
    assert (a - c) - (b - d) == TWO32 * (q1 - q2);
  }

  lemma CongruentScaled(a: int, b: int, k: int)
    requires Congruent(a, b)
    ensures Congruent(a * k, b * k)
  {
    var q := (a - b) / TWO32;
    assert a - b == TWO32 * q;
    assert a * k - b * k == (a - b) * k;
    assert a * k - b * k == TWO32 * (q * k);
  }

  // ---------------------------------------------------------------------
  // The string hash `hash = ((hash << 5) - hash) + char; hash = hash & hash`

  /** One character of the hash loop. */
  function HashStep(h: int, c: char): (r: int)
    ensures -TWO31 <= r < TWO31
  {
    ToInt32((ShiftLeft(h, 5) - h) + c as int)
  }

  /** The 32-bit value the hash loop holds after the characters of s. */
  function HashValue(s: string): (r: int)
    ensures -TWO31 <= r < TWO31
  {
    if s == [] then 0 else HashStep(HashValue(s[..|s| - 1]), s[|s| - 1])
  }

  /** The hash loop, one character at a time. */
  method HashLoop(s: string) returns (h: int)
    ensures h == HashValue(s)
  {
    h := 0;
    for i := 0 to |s|
      invariant h == HashValue(s[..i])
    {
      assert s[..i + 1][..i] == s[..i];
      h := HashStep(h, s[i]);
    }
    assert s[..|s|] == s;
  }

  /** The character codes of s read as digits in base b, most significant
      first. */
  function Polynomial(s: string, b: int): int {
    if s == [] then 0 else Polynomial(s[..|s| - 1], b) * b + s[|s| - 1] as int
  }

  /** The loop computes Java's `String.hashCode`: the character codes as
      digits in base 31, taken modulo 2^32 as a signed 32-bit value. */
  lemma {:induction false} HashValueIsPolynomial(s: string)
    ensures HashValue(s) == ToInt32(Polynomial(s, 31))
  {
    if s == [] {
      Int32Unique(0, 0);
    } else {
      var w := s[..|s| - 1];
      var c := s[|s| - 1] as int;
      var h := HashValue(w);
      var p := Polynomial(w, 31);
      HashValueIsPolynomial(w);
      // h is congruent to p, so (h << 5) - h + c is congruent to 31 p + c.
      CongruentSymm(p, h);
      assert Pow2(5) == 32;
      CongruentScaled(h, p, 32);
      ShiftLeftCongruent(h, 5);
      CongruentTrans(ShiftLeft(h, 5), h * 32, p * 32);
      CongruentSum(ShiftLeft(h, 5), p * 32, h, p);
      CongruentSum(ShiftLeft(h, 5) - h, p * 32 - p, c, c);
      var v := (ShiftLeft(h, 5) - h) + c;
      assert p * 32 - p + c == Polynomial(s, 31);
      CongruentSymm(v, ToInt32(v));
      CongruentTrans(ToInt32(v), v, Polynomial(s, 31));
      CongruentSymm(ToInt32(v), Polynomial(s, 31));
      Int32Unique(Polynomial(s, 31), ToInt32(v));
    }
  }

  /** `Math.abs(hash) % m`: the hash of s reduced to [0, m). */
  function HashMod(s: string, m: nat): (r: nat)
    requires m > 0
    ensures r < m
  {
    Abs(HashValue(s)) % m
  }
}
