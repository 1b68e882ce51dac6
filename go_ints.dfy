/** Go's fixed-width integers (uint32, uint64, int64) over Dafny's unbounded
    integers: every wrap-around, conversion and shift the converter relies on
    is written out explicitly here. */
module GoInts {

  const TWO31: int := 0x8000_0000
  const TWO32: int := 0x1_0000_0000
  const TWO63: int := 0x8000_0000_0000_0000
  const TWO64: int := 0x1_0000_0000_0000_0000

  predicate IsUint32(x: int) { 0 <= x < TWO32 }
  predicate IsUint64(x: int) { 0 <= x < TWO64 }
  predicate IsInt64(x: int) { -TWO63 <= x < TWO63 }

  /** Go's `uint64(x)`, and the wrap-around of uint64 `+`, `*` and `<<`:
      the representative of x modulo 2^64 in [0, 2^64). */
  function Uint64(x: int): (r: int)
    ensures IsUint64(r)
    ensures IsUint64(x) ==> r == x
  {
    x % TWO64
  }

  /** Go's `int64(x)` for a uint64 x: the two's complement reading of its bits. */
  function Int64(x: int): (r: int)
    requires IsUint64(x)
    ensures IsInt64(r) && (x - r) % TWO64 == 0
    ensures x < TWO63 ==> r == x
  {
    if x < TWO63 then x else x - TWO64
  }

  /** uint64 `x + y`. */
  function Add64(x: int, y: int): int { Uint64(x + y) }

  /** uint64 `x * y`. */
  function Mul64(x: int, y: int): int { Uint64(x * y) }

  /** uint64 `x << 32`. */
  function Shl32(x: int): int { Uint64(x * TWO32) }

  /** `x >> 32`: a logical shift on a uint64 and an arithmetic shift on an
      int64 are both floor division by 2^32 (Dafny's `/` floors for a
      positive divisor). */
  function Shr32(x: int): int { x / TWO32 }

  /** `x & 0xFFFFFFFF` on a uint64 or (two's complement) int64. */
  function Low32(x: int): (r: int)
    ensures IsUint32(r)
  {
    x % TWO32
  }

  // ---------------------------------------------------------------------
  // Arithmetic facts used by the converter proofs.

  lemma MulMono(a: int, b: int, c: int, d: int)
    requires 0 <= a <= b && 0 <= c <= d
    ensures 0 <= a * c <= b * d
  {
    assert a * c <= b * c;
    assert b * c <= b * d;
  }

  /** The product of two uint32 values never wraps a uint64. */
  lemma MulUint32(x: int, y: int)
    requires IsUint32(x) && IsUint32(y)
    ensures IsUint64(x * y)
  {
    MulMono(x, TWO32 - 1, y, TWO32 - 1);
  }

  /** A uint32 times a value below 2^31 never wraps a uint64 either. */
  lemma MulUint32Small(x: int, y: int)
    requires IsUint32(x) && 0 <= y < TWO31
    ensures 0 <= x * y < TWO63
  {
    MulMono(x, TWO32 - 1, y, TWO31 - 1);
  }

  /** Reducing an addend modulo 2^64 first does not change a uint64 sum. */
  lemma AddUint64Left(x: int, y: int)
    ensures Uint64(Uint64(x) + y) == Uint64(x + y)
  {
    var q := x / TWO64;
    assert x == TWO64 * q + Uint64(x);
    assert Uint64(x) + y == (x + y) - TWO64 * q;
    ModMultiple(x + y, -q);
  }

  lemma ModMultiple(z: int, k: int)
    ensures (z + TWO64 * k) % TWO64 == z % TWO64
  {
  }

  /** Splitting a quotient by 2^64 into a whole part n and a part measured
      in units of 2^32: the remainder r below 2^32 never reaches the result. */
  lemma DivSplit(n: int, x: int, r: int)
    requires x >= 0 && 0 <= r < TWO32
    ensures (TWO64 * n + TWO32 * x + r) / TWO64 == n + x / TWO32
  {
    var k, j := x / TWO32, x % TWO32;
    assert x == TWO32 * k + j;
    assert TWO32 * x == TWO64 * k + TWO32 * j;
    assert 0 <= TWO32 * j + r < TWO64;
    assert TWO64 * n + TWO32 * x + r == TWO64 * (n + k) + (TWO32 * j + r);
  }

  /** Floor division by 2^64 is monotone. */
  lemma DivMono(x: int, y: int)
    requires x <= y
    ensures x / TWO64 <= y / TWO64
  {
  }
}
