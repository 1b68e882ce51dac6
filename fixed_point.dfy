/** The nanoseconds-per-tick multiplier: floor(1e9 * 2^64 / qpf) as a 32.64
    fixed-point value, and its three 32-bit limbs A.BC (nsPerQPCv[0..2]). */
module FixedPoint {
  import opened GoInts
  import opened BigBytes

  const NsPerSecond: int := 1_000_000_000
  const TWO96: int := 0x1_0000_0000_0000_0000_0000_0000

  /** `res.Div(1e9 << 64, qpf)`: the multiplier, the largest res with
      res * qpf <= 1e9 * 2^64. */
  function Multiplier(qpf: int): (res: nat)
    requires qpf > 0
    ensures res * qpf <= NsPerSecond * TWO64 < (res + 1) * qpf
  {
    NsPerSecond * TWO64 / qpf
  }

  /** For every positive frequency the multiplier fits in 96 bits, so its
      byte string never has more than 12 bytes. */
  lemma MultiplierInRange(qpf: int)
    requires qpf > 0
    ensures Multiplier(qpf) <= NsPerSecond * TWO64 < TWO96
    ensures |Bytes(Multiplier(qpf))| <= 12
  {
    var res := Multiplier(qpf);
    MulMono(res, res, 1, qpf);
    Pow256Words();
    BytesLength(res, 12);
  }

  lemma Pow256Words()
    ensures Pow256(4) == TWO32 && Pow256(8) == TWO64 && Pow256(12) == TWO96
  {
    assert Pow256(2) == 0x1_0000;
    assert Pow256(4) == 256 * (256 * Pow256(2));
    assert Pow256(8) == 256 * (256 * (256 * (256 * Pow256(4))));
    assert Pow256(12) == 256 * (256 * (256 * (256 * Pow256(8))));
  }

  /** nsPerQPCv: A is the integer part, B and C the two fractional limbs. */
  datatype Limbs = Limbs(a: int, b: int, c: int)

  predicate ValidLimbs(m: Limbs)
  {
    IsUint32(m.a) && IsUint32(m.b) && IsUint32(m.c)
  }

  /** The 32.64 multiplier the limbs stand for, scaled by 2^64. */
  function LimbValue(m: Limbs): int
  {
    m.a * TWO64 + m.b * TWO32 + m.c
  }

  /** The unique limbs of a 96-bit multiplier. */
  function LimbsOf(res: nat): (m: Limbs)
    requires res < TWO96
    ensures ValidLimbs(m) && LimbValue(m) == res
  {
    var hi := res / TWO32;
    assert res == hi * TWO32 + res % TWO32;
    assert hi == (hi / TWO32) * TWO32 + hi % TWO32;
    Limbs(hi / TWO32, hi % TWO32, res % TWO32)
  }

  /** Limbs with the same value are the same limbs. */
  lemma LimbsUnique(m: Limbs)
    requires ValidLimbs(m)
    ensures LimbValue(m) < TWO96 && LimbsOf(LimbValue(m)) == m
  {
    var v := LimbValue(m);
    assert v == (m.a * TWO32 + m.b) * TWO32 + m.c;
    assert v / TWO32 == m.a * TWO32 + m.b;
  }

  /** The limbs calibration stores for a positive frequency. */
  function CalibratedLimbs(qpf: int): (m: Limbs)
    requires qpf > 0
    ensures ValidLimbs(m) && LimbValue(m) == Multiplier(qpf)
  {
    MultiplierInRange(qpf);
    LimbsOf(Multiplier(qpf))
  }

  /** `(uint32(s[0]) << 24) | (uint32(s[1]) << 16) | (uint32(s[2]) << 8) | uint32(s[3])`:
      the four bytes occupy disjoint bit ranges, so the ors are sums. */
  function Word32(s: seq<Byte>): (w: int)
    requires |s| == 4
    ensures IsUint32(w) && w == Value(s)
  {
    var b0, b1, b2, b3: int := s[0], s[1], s[2], s[3];
    assert s[..1][..0] == [] && s[..2][..1] == s[..1] && s[..3][..2] == s[..2] && s[..4][..3] == s[..3] && s[..4] == s;
    assert Value(s[..1]) == b0;
    assert Value(s[..2]) == b0 * 256 + b1;
    assert Value(s[..3]) == (b0 * 256 + b1) * 256 + b2;
    b0 * 0x100_0000 + b1 * 0x1_0000 + b2 * 0x100 + b3
  }

  /** A 12-byte big-endian string is three big-endian 32-bit words. */
  lemma TwelveBytes(s: seq<Byte>)
    requires |s| == 12
    ensures Value(s) == Word32(s[0..4]) * TWO64 + Word32(s[4..8]) * TWO32 + Word32(s[8..12])
  {
    var w0, w1, w2 := s[0..4], s[4..8], s[8..12];
    assert s == (w0 + w1) + w2;
    Pow256Words();
    ValueAppend(w0 + w1, w2);
    ValueAppend(w0, w1);
    var v0, v1, v2 := Value(w0), Value(w1), Value(w2);
    assert Value(s) == (v0 * TWO32 + v1) * TWO32 + v2;
    assert Word32(w0) == v0 && Word32(w1) == v1 && Word32(w2) == v2;
  }

  /** `uint64(A) << 32 | uint64(B)`: the 32.32 multiplier passed to the
      assembly multiply. It is the 32.64 multiplier with its lowest limb
      truncated, and it always fits a uint64. */
  function Fixed32x32(m: Limbs): (fp: int)
    requires ValidLimbs(m)
    ensures IsUint64(fp) && fp == LimbValue(m) / TWO32
  {
    assert LimbValue(m) == (m.a * TWO32 + m.b) * TWO32 + m.c;
    MulMono(m.a, TWO32 - 1, TWO32, TWO32);
    Shl32(Uint64(m.a)) + Uint64(m.b)
  }

  /** When the frequency divides 1e9 (10 MHz, say) the fractional limbs are
      zero and the integer limb is the exact nanoseconds per tick. */
  lemma MultiplierWhenQpfDivides(qpf: int)
    requires qpf > 0 && NsPerSecond % qpf == 0
    ensures Multiplier(qpf) < TWO96
    ensures LimbsOf(Multiplier(qpf)) == Limbs(NsPerSecond / qpf, 0, 0)
  {
    var k := NsPerSecond / qpf;
    assert NsPerSecond == k * qpf;
    assert NsPerSecond * TWO64 == (k * TWO64) * qpf;
    assert Multiplier(qpf) == k * TWO64;
    MulMono(1, qpf, k, k);
    LimbsUnique(Limbs(k, 0, 0));
  }
}
