/**
 * The 32-bit integer semantics of the JavaScript operators that the decoders
 * rely on: `| 0`, `>>> 0`, stores into a Uint32Array or Uint8Array, and the
 * powers of two used by shifts.  Numbers are unbounded here; every wrap-around
 * the engine performs is written out explicitly.
 */
module JsInt {
  const TWO8: int := 0x100
  const TWO16: int := 0x1_0000
  const TWO24: int := 0x100_0000
  const TWO31: int := 0x8000_0000
  const TWO32: int := 0x1_0000_0000

  /** An element of a Uint8Array. */
  type byte = x: int | 0 <= x < 0x100

  /** An element of a Uint32Array, or the result of `>>> 0`. */
  type uint32 = x: int | 0 <= x < 0x1_0000_0000

  /** A value of the signed 32-bit range produced by `|`, `&`, `<<` and `>>`. */
  predicate IsInt32(x: int) { -TWO31 <= x < TWO31 }

  /** ECMAScript ToUint32: the value modulo 2^32. */
  function ToUint32(x: int): (r: uint32)
    ensures 0 <= x < TWO32 ==> r == x
  {
    x % 0x1_0000_0000
  }

  /** ECMAScript ToInt32: the representative of x modulo 2^32 in [-2^31, 2^31). */
  function ToInt32(x: int): (r: int)
    ensures IsInt32(r) && ToUint32(r) == ToUint32(x)
    ensures IsInt32(x) ==> r == x
  {
    var u := x % 0x1_0000_0000;
    if u < 0x8000_0000 then u else u - 0x1_0000_0000
  }

  /** `a + b` of two 32-bit words, stored into a Uint32Array: the sum wraps at 2^32. */
  function Add32(a: uint32, b: uint32): uint32
  {
    if a + b < 0x1_0000_0000 then a + b else a + b - 0x1_0000_0000
  }

  /** `a - b` of two 32-bit words, stored into a Uint32Array. */
  function Sub32(a: uint32, b: uint32): uint32
  {
    if a >= b then a - b else a - b + 0x1_0000_0000
  }

  /** The wrap-around of Add32 is ToUint32 of the exact sum. */
  lemma Add32IsModular(a: uint32, b: uint32)
    ensures Add32(a, b) == ToUint32(a + b)
  {
    if a + b >= TWO32 {
      ToUint32Shift(a + b - TWO32, 1);
    }
  }

  function Pow2(n: nat): (r: nat)
    ensures r >= 1
  {
    if n == 0 then 1 else 2 * Pow2(n - 1)
  }

  function Max(a: int, b: int): int { if a < b then b else a }
  function Min(a: int, b: int): int { if a < b then a else b }

  /** Adding a multiple of 2^32 does not change ToUint32. */
  lemma ToUint32Shift(x: int, k: int)
    ensures ToUint32(x + k * TWO32) == ToUint32(x)
  {
  }

  /** Subtracting then adding back the same word is the identity modulo 2^32. */
  lemma AddSubCancel(x: uint32, y: uint32)
    ensures Add32(Sub32(x, y), y) == x
    ensures Sub32(Add32(x, y), y) == x
  {
  }

  lemma Pow2Add(a: nat, b: nat)
    ensures Pow2(a + b) == Pow2(a) * Pow2(b)
  {
    if a > 0 { Pow2Add(a - 1, b); }
  }

  lemma Pow2Mono(a: nat, b: nat)
    requires a <= b
    ensures Pow2(a) <= Pow2(b)
  {
    if a < b { Pow2Mono(a, b - 1); }
  }

  /** Quotient and remainder are determined by the decomposition x == d * q + r. */
  lemma DivModUnique(x: int, d: int, q: int, r: int)
    requires d > 0 && 0 <= r < d && x == d * q + r
    ensures x / d == q && x % d == r
  {
    var q', r' := x / d, x % d;
    assert d * (q - q') == r' - r;
    if q > q' {
      MulLe(d, 1, q - q');
    } else if q < q' {
      MulLe(d, 1, q' - q);
    }
  }

  /** Euclidean division of x by d, written out as quotient and remainder. */
  lemma DivModParts(x: int, d: int)
    requires d > 0
    ensures x == d * (x / d) + x % d && 0 <= x % d < d
  {
  }

  /** A value below m multiples of d has a quotient below m. */
  lemma DivBelow(x: int, d: int, m: int)
    requires d > 0 && 0 <= x < m * d
    ensures 0 <= x / d < m
  {
    DivModParts(x, d);
    if x / d >= m {
      MulLe(d, m, x / d);
    }
  }

  /** A two-digit number in mixed radix stays below the product of its radices. */
  lemma MixedRadixBelow(a: int, x: int, b: int, y: int)
    requires 0 <= a < x && 0 <= b < y
    ensures 0 <= a + x * b < x * y
  {
    MulLe(x, b, y - 1);
    MulLe(x, 0, b);
    assert x * (y - 1) == x * y - x;
  }

  /** One more multiple of x. */
  lemma MulSucc(x: int, y: int)
    ensures x * (y + 1) == x * y + x
  {
  }

  lemma MulLe(a: int, b: int, c: int)
    requires 0 <= a && b <= c
    ensures a * b <= a * c
  {
    assert a * c - a * b == a * (c - b);
  }

  /** Reducing an addend modulo 2^32 first does not change the ToUint32 of a sum. */
  lemma AddMod(x: int, y: int)
    ensures ToUint32(ToUint32(x) + y) == ToUint32(x + y)
  {
    var q := x / TWO32;
    assert ToUint32(x) + y == (x + y) + (-q) * TWO32;
    ToUint32Shift(x + y, -q);
  }

  /** Stepping by the modulus keeps the residue. */
  lemma ModStep(j: int, m: int)
    requires m > 0
    ensures (j + m) % m == j % m
  {
    DivModUnique(j + m, m, j / m + 1, j % m);
  }
}
