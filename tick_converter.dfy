/** The exact fixed-point tick converter `qpc_to_int_old`: a base-2^32
    multiply of the counter DE.00 by the 32.64 multiplier A.BC, with uint64
    wrap-around, the lowest cross product (E*C) discarded, and a half unit
    added before the final shift. Beside it, the same multiply with that cross
    product kept, which rounds qpcv * res / 2^64 to the nearest integer. */
module TickConverter {
  import opened GoInts
  import opened FixedPoint

  /** `qpc_to_int_old(qpcv)` over the calibrated limbs m. */
  function QpcToIntOld(m: Limbs, qpcv: int): (ns: int)
    requires ValidLimbs(m) && IsInt64(qpcv)
    ensures IsInt64(ns)
  {
    var lo := Low32(qpcv);          // counter & 0xFFFFFFFF
    var hi := Shr32(qpcv);          // counter >> 32
    var c0w1 := Mul64(Uint64(lo), m.b);
    var c0w2 := Mul64(Uint64(lo), m.a);
    var c1w0 := Mul64(Uint64(hi), m.c);
    var c1w1 := Mul64(Uint64(hi), m.b);
    var c1w2 := Mul64(Uint64(hi), m.a);
    var ticks := Add64(Add64(Add64(Add64(Shr32(c0w1), c0w2), Shr32(c1w0)), c1w1), Shl32(c1w2));
    var rounded := Add64(ticks, Shr32(Add64(Add64(Low32(c0w1), Low32(c1w0)), 0x8000_0000)));
    Int64(rounded)
  }

  /** The same multiply keeping the lowest cross product `c0w0`: its upper
      half enters the rounding sum. */
  function QpcToIntRounded(m: Limbs, qpcv: int): (ns: int)
    requires ValidLimbs(m) && IsInt64(qpcv)
    ensures IsInt64(ns)
  {
    var lo := Low32(qpcv);
    var hi := Shr32(qpcv);
    var c0w0 := Mul64(Uint64(lo), m.c);
    var c0w1 := Mul64(Uint64(lo), m.b);
    var c0w2 := Mul64(Uint64(lo), m.a);
    var c1w0 := Mul64(Uint64(hi), m.c);
    var c1w1 := Mul64(Uint64(hi), m.b);
    var c1w2 := Mul64(Uint64(hi), m.a);
    var ticks := Add64(Add64(Add64(Add64(Shr32(c0w1), c0w2), Shr32(c1w0)), c1w1), Shl32(c1w2));
    var rounded := Add64(ticks, Shr32(Add64(Add64(Add64(Low32(c0w1), Low32(c1w0)), Shr32(c0w0)), 0x8000_0000)));
    Int64(rounded)
  }

  // ---------------------------------------------------------------------
  // Reference definitions.

  /** qpcv * res / 2^64 rounded half up: the value a full-width multiply
      followed by round-to-nearest would give. */
  function RoundedProduct(m: Limbs, qpcv: int): int
  {
    (qpcv * LimbValue(m) + TWO63) / TWO64
  }

  /** What the old converter computes before the final wrap: the rounded
      product with the discarded cross product (qpcv mod 2^32) * C taken out. */
  function OldProduct(m: Limbs, qpcv: int): int
  {
    (qpcv * LimbValue(m) - (qpcv % TWO32) * m.c + TWO63) / TWO64
  }

  // ---------------------------------------------------------------------
  // Closed forms.

  /** The five uint64 additions wrap exactly once, at the end. */
  lemma SumOfFive(x1: int, x2: int, x3: int, x4: int, x5: int)
    ensures Add64(Add64(Add64(Add64(x1, x2), x3), x4), x5) == Uint64(x1 + x2 + x3 + x4 + x5)
  {
    AddUint64Left(x1 + x2, x3);
    AddUint64Left(x1 + x2 + x3, x4);
    AddUint64Left(x1 + x2 + x3 + x4, x5);
  }

  /** The exact product, regrouped by powers of 2^32 the way the limbs
      are multiplied. */
  lemma ProductLayout(m: Limbs, hi: int, lo: int)
    ensures (hi * TWO32 + lo) * LimbValue(m)
         == TWO64 * (hi * m.a * TWO32 + hi * m.b + lo * m.a) + TWO32 * (hi * m.c + lo * m.b) + lo * m.c
  {
  }

  /** The limb-wise sum that both converters share, before rounding. */
  lemma LimbSums(m: Limbs, qpcv: int)
    returns (hi: int, lo: int)
    requires ValidLimbs(m) && 0 <= qpcv < TWO63
    ensures lo == Low32(qpcv) && hi == Shr32(qpcv) && qpcv == hi * TWO32 + lo
    ensures 0 <= hi < TWO31 && IsUint32(lo)
    ensures Uint64(lo) == lo && Uint64(hi) == hi
    ensures Mul64(lo, m.a) == lo * m.a && Mul64(lo, m.b) == lo * m.b && Mul64(lo, m.c) == lo * m.c
    ensures Mul64(hi, m.a) == hi * m.a && Mul64(hi, m.b) == hi * m.b && Mul64(hi, m.c) == hi * m.c
    ensures Shl32(hi * m.a) == Uint64(hi * m.a * TWO32)
  {
    lo, hi := Low32(qpcv), Shr32(qpcv);
    MulUint32(lo, m.a);
    MulUint32(lo, m.b);
    MulUint32(lo, m.c);
    MulUint32Small(m.a, hi);
    MulUint32Small(m.b, hi);
    MulUint32Small(m.c, hi);
  }

  /** Rounding the sum of two uint64 halves-and-carries: adding the upper
      halves and then the carry out of the lower halves (plus k) is one
      floor division of the whole sum. */
  lemma CarrySplit(x: int, y: int, k: int)
    requires x >= 0 && y >= 0 && k >= 0
    ensures x / TWO32 + y / TWO32 + (x % TWO32 + y % TWO32 + k) / TWO32 == (x + y + k) / TWO32
  {
    var x1, y1 := x / TWO32, y / TWO32;
    assert x + y + k == TWO32 * (x1 + y1) + (x % TWO32 + y % TWO32 + k);
  }

  /** The old rounding sum: the carry out of the two lower halves and the
      half unit. */
  lemma OldCarry(x01: int, x10: int)
    requires IsUint64(x01) && IsUint64(x10)
    ensures x01 / TWO32 + x10 / TWO32 + Shr32(Add64(Add64(Low32(x01), Low32(x10)), 0x8000_0000))
         == (x01 + x10 + TWO31) / TWO32
  {
    assert Add64(Add64(Low32(x01), Low32(x10)), 0x8000_0000) == Low32(x01) + Low32(x10) + TWO31;
    CarrySplit(x01, x10, TWO31);
  }

  /** The corrected rounding sum: the same with the upper half j of the
      lowest cross product added in. */
  lemma RoundedCarry(x01: int, x10: int, j: int)
    requires IsUint64(x01) && IsUint64(x10) && IsUint32(j)
    ensures x01 / TWO32 + x10 / TWO32 + Shr32(Add64(Add64(Add64(Low32(x01), Low32(x10)), j), 0x8000_0000))
         == (x01 + x10 + (j + TWO31)) / TWO32
  {
    assert Add64(Add64(Add64(Low32(x01), Low32(x10)), j), 0x8000_0000) == Low32(x01) + Low32(x10) + (j + TWO31);
    CarrySplit(x01, x10, j + TWO31);
  }

  /** The five upper terms of the sum, then the carry, wrap only once. */
  lemma SumShape(x01: int, x02: int, x10: int, x11: int, x12: int, carry: int)
    ensures Add64(Add64(Add64(Add64(Add64(Shr32(x01), x02), Shr32(x10)), x11), Shl32(x12)), carry)
         == Uint64(x12 * TWO32 + x11 + x02 + (x01 / TWO32 + x10 / TWO32 + carry))
  {
    var s := x12 * TWO32 + (Shr32(x01) + x02 + Shr32(x10) + x11);
    SumOfFive(Shr32(x01), x02, Shr32(x10), x11, Shl32(x12));
    AddUint64Left(x12 * TWO32, Shr32(x01) + x02 + Shr32(x10) + x11);
    AddUint64Left(s, carry);
  }

  /** The old converter's pre-wrap value is OldProduct. */
  lemma OldProductLayout(m: Limbs, hi: int, lo: int)
    requires ValidLimbs(m) && 0 <= hi && IsUint32(lo)
    ensures OldProduct(m, hi * TWO32 + lo)
         == hi * m.a * TWO32 + hi * m.b + lo * m.a + (lo * m.b + hi * m.c + TWO31) / TWO32
    ensures OldProduct(m, hi * TWO32 + lo) >= 0
  {
    MulMono(0, hi, 0, m.a);
    MulMono(0, hi, 0, m.b);
    MulMono(0, lo, 0, m.a);
    var q := hi * TWO32 + lo;
    assert q % TWO32 == lo;
    ProductLayout(m, hi, lo);
    MulUint32(lo, m.b);
    MulMono(0, hi, 0, m.c);
    DivSplit(hi * m.a * TWO32 + hi * m.b + lo * m.a, hi * m.c + lo * m.b + TWO31, 0);
  }

  /** The rounded converter's pre-wrap value is RoundedProduct. */
  lemma RoundedProductLayout(m: Limbs, hi: int, lo: int)
    requires ValidLimbs(m) && 0 <= hi && IsUint32(lo)
    ensures RoundedProduct(m, hi * TWO32 + lo)
         == hi * m.a * TWO32 + hi * m.b + lo * m.a + (lo * m.b + hi * m.c + ((lo * m.c) / TWO32 + TWO31)) / TWO32
    ensures RoundedProduct(m, hi * TWO32 + lo) >= 0
  {
    MulMono(0, hi, 0, m.a);
    MulMono(0, hi, 0, m.b);
    MulMono(0, lo, 0, m.a);
    var c0w0 := lo * m.c;
    ProductLayout(m, hi, lo);
    MulUint32(lo, m.c);
    MulUint32(lo, m.b);
    MulMono(0, hi, 0, m.c);
    assert c0w0 == TWO32 * (c0w0 / TWO32) + c0w0 % TWO32;
    DivSplit(hi * m.a * TWO32 + hi * m.b + lo * m.a, hi * m.c + lo * m.b + TWO31 + c0w0 / TWO32, c0w0 % TWO32);
  }

  /** The old converter's limb arithmetic, before it is related to the
      exact product. */
  lemma OldBody(m: Limbs, qpcv: int)
    requires ValidLimbs(m) && 0 <= qpcv < TWO63
    ensures var hi, lo := qpcv / TWO32, qpcv % TWO32;
      QpcToIntOld(m, qpcv)
      == Int64(Uint64(hi * m.a * TWO32 + hi * m.b + lo * m.a + (lo * m.b + hi * m.c + TWO31) / TWO32))
  {
    var hi, lo := LimbSums(m, qpcv);
    var carry := Shr32(Add64(Add64(Low32(lo * m.b), Low32(hi * m.c)), 0x8000_0000));
    SumShape(lo * m.b, lo * m.a, hi * m.c, hi * m.b, hi * m.a, carry);
    OldCarry(lo * m.b, hi * m.c);
  }

  /** For counters in [0, 2^63), qpc_to_int_old is the rounded product with
      the cross product E*C left out, reduced to 64 bits and read as int64. */
  lemma OldClosedForm(m: Limbs, qpcv: int)
    requires ValidLimbs(m) && 0 <= qpcv < TWO63
    ensures OldProduct(m, qpcv) >= 0
    ensures QpcToIntOld(m, qpcv) == Int64(Uint64(OldProduct(m, qpcv)))
  {
    OldBody(m, qpcv);
    var hi, lo := qpcv / TWO32, qpcv % TWO32;
    assert qpcv == hi * TWO32 + lo;
    OldProductLayout(m, hi, lo);
  }

  /** The corrected converter's limb arithmetic. */
  lemma RoundedBody(m: Limbs, qpcv: int)
    requires ValidLimbs(m) && 0 <= qpcv < TWO63
    ensures var hi, lo := qpcv / TWO32, qpcv % TWO32;
      QpcToIntRounded(m, qpcv)
      == Int64(Uint64(hi * m.a * TWO32 + hi * m.b + lo * m.a + (lo * m.b + hi * m.c + ((lo * m.c) / TWO32 + TWO31)) / TWO32))
  {
    var hi, lo := LimbSums(m, qpcv);
    var j := Shr32(lo * m.c);
    var carry := Shr32(Add64(Add64(Add64(Low32(lo * m.b), Low32(hi * m.c)), j), 0x8000_0000));
    SumShape(lo * m.b, lo * m.a, hi * m.c, hi * m.b, hi * m.a, carry);
    RoundedCarry(lo * m.b, hi * m.c, j);
  }

  /** The rounded converter is the rounded product, reduced to 64 bits and
      read as int64. */
  lemma RoundedClosedForm(m: Limbs, qpcv: int)
    requires ValidLimbs(m) && 0 <= qpcv < TWO63
    ensures RoundedProduct(m, qpcv) >= 0
    ensures QpcToIntRounded(m, qpcv) == Int64(Uint64(RoundedProduct(m, qpcv)))
  {
    RoundedBody(m, qpcv);
    var hi, lo := qpcv / TWO32, qpcv % TWO32;
    assert qpcv == hi * TWO32 + lo;
    RoundedProductLayout(m, hi, lo);
  }

  // ---------------------------------------------------------------------
  // Rounding.

  /** Leaving out E*C costs at most one unit: the old converter's value is
      the rounded product or one less. */
  lemma OldProductNearRounded(m: Limbs, qpcv: int)
    requires ValidLimbs(m) && 0 <= qpcv < TWO63
    ensures RoundedProduct(m, qpcv) - 1 <= OldProduct(m, qpcv) <= RoundedProduct(m, qpcv)
  {
    var x := qpcv * LimbValue(m) + TWO63;
    var d := (qpcv % TWO32) * m.c;
    MulUint32(qpcv % TWO32, m.c);
    DivMono(x - d, x);
    DivMono(x - TWO64, x - d);
    assert (x - TWO64) / TWO64 == x / TWO64 - 1;
  }

  /** Without wrap-around, qpc_to_int_old(qpcv) is floor(qpcv * res / 2^64 + 1/2)
      or one less. */
  lemma OldRounding(m: Limbs, qpcv: int)
    requires ValidLimbs(m) && 0 <= qpcv < TWO63
    requires OldProduct(m, qpcv) < TWO63
    ensures QpcToIntOld(m, qpcv) == OldProduct(m, qpcv)
    ensures QpcToIntOld(m, qpcv) == RoundedProduct(m, qpcv) || QpcToIntOld(m, qpcv) == RoundedProduct(m, qpcv) - 1
  {
    OldClosedForm(m, qpcv);
    OldProductNearRounded(m, qpcv);
  }

  /** Without wrap-around, the corrected converter is exactly
      floor(qpcv * res / 2^64 + 1/2). */
  lemma RoundedRounding(m: Limbs, qpcv: int)
    requires ValidLimbs(m) && 0 <= qpcv < TWO63
    requires RoundedProduct(m, qpcv) < TWO63
    ensures QpcToIntRounded(m, qpcv) == RoundedProduct(m, qpcv)
  {
    RoundedClosedForm(m, qpcv);
  }

  /** With an integral multiplier (both fractional limbs zero) nothing is
      rounded: the result is qpcv times the integer limb. */
  lemma OldExactForIntegralMultiplier(m: Limbs, qpcv: int)
    requires ValidLimbs(m) && m.b == 0 && m.c == 0
    requires 0 <= qpcv < TWO63 && qpcv * m.a < TWO63
    ensures QpcToIntOld(m, qpcv) == qpcv * m.a
  {
    IntegralOldProduct(m, qpcv);
    OldClosedForm(m, qpcv);
  }

  lemma IntegralOldProduct(m: Limbs, qpcv: int)
    requires ValidLimbs(m) && m.b == 0 && m.c == 0
    ensures OldProduct(m, qpcv) == qpcv * m.a
  {
    var n := qpcv * m.a;
    assert LimbValue(m) == m.a * TWO64;
    assert qpcv * LimbValue(m) == TWO64 * n;
    assert (qpcv % TWO32) * m.c == 0;
    assert (TWO64 * n + TWO63) / TWO64 == n;
  }

  // ---------------------------------------------------------------------
  // Monotonicity.

  /** qpcv * v - (qpcv mod 2^32) * c = D * (2^32 * v) + E * (v - c). */
  lemma NumeratorSplit(q: int, v: int, c: int)
    requires q >= 0
    ensures q * v - (q % TWO32) * c == (q / TWO32) * (TWO32 * v) + (q % TWO32) * (v - c)
  {
    var h, l := q / TWO32, q % TWO32;
    assert q == h * TWO32 + l;
    assert q * v == h * (TWO32 * v) + l * v;
  }

  /** D * V + E * w with E < 2^32 and 0 <= w <= v, V = 2^32 * v, grows with
      the counter DE. */
  lemma HiLoMono(h1: int, l1: int, h2: int, l2: int, v: int, w: int)
    requires 0 <= h1 <= h2 && IsUint32(l1) && IsUint32(l2) && (h1 < h2 || l1 <= l2)
    requires 0 <= w <= v
    ensures h1 * (TWO32 * v) + l1 * w <= h2 * (TWO32 * v) + l2 * w
  {
    if h1 == h2 {
      MulMono(l1, l2, w, w);
    } else {
      MulMono(l1, TWO32, w, v);
      MulMono(h1 + 1, h2, TWO32 * v, TWO32 * v);
      assert (h1 + 1) * (TWO32 * v) == h1 * (TWO32 * v) + TWO32 * v;
      MulMono(0, l2, 0, w);
    }
  }

  /** The numerator of OldProduct, qpcv * res - (qpcv mod 2^32) * C, is
      non-decreasing in qpcv. */
  lemma OldNumeratorMono(m: Limbs, q1: int, q2: int)
    requires ValidLimbs(m) && 0 <= q1 <= q2
    ensures q1 * LimbValue(m) - (q1 % TWO32) * m.c <= q2 * LimbValue(m) - (q2 % TWO32) * m.c
  {
    var v := LimbValue(m);
    NumeratorSplit(q1, v, m.c);
    NumeratorSplit(q2, v, m.c);
    HiLoMono(q1 / TWO32, q1 % TWO32, q2 / TWO32, q2 % TWO32, v, v - m.c);
  }

  /** qpc_to_int_old never goes backwards while it does not wrap: the
      monotonicity the clock's readers rely on. */
  lemma OldMonotone(m: Limbs, q1: int, q2: int)
    requires ValidLimbs(m) && 0 <= q1 <= q2 < TWO63
    requires OldProduct(m, q2) < TWO63
    ensures 0 <= QpcToIntOld(m, q1) <= QpcToIntOld(m, q2)
  {
    OldNumeratorMono(m, q1, q2);
    DivMono(q1 * LimbValue(m) - (q1 % TWO32) * m.c + TWO63, q2 * LimbValue(m) - (q2 % TWO32) * m.c + TWO63);
    OldClosedForm(m, q1);
    OldClosedForm(m, q2);
  }

  /** The corrected converter is monotone too. */
  lemma RoundedMonotone(m: Limbs, q1: int, q2: int)
    requires ValidLimbs(m) && 0 <= q1 <= q2 < TWO63
    requires RoundedProduct(m, q2) < TWO63
    ensures QpcToIntRounded(m, q1) <= QpcToIntRounded(m, q2)
  {
    assert 0 <= LimbValue(m);
    MulMono(q1, q2, LimbValue(m), LimbValue(m));
    DivMono(q1 * LimbValue(m) + TWO63, q2 * LimbValue(m) + TWO63);
    RoundedClosedForm(m, q1);
    RoundedClosedForm(m, q2);
  }

  // ---------------------------------------------------------------------
  // Against the exact time qpcv * 1e9 / qpf.

  /** Scaling "e * 2^64 <= qpcv * r + 2^63" by qpf, with r * qpf <= 1e9 * 2^64. */
  lemma ScaledUpper(e: int, q: int, r: int, qpf: int)
    requires 0 <= q && 0 < qpf && 0 <= e && 0 <= r
    requires e * TWO64 <= q * r + TWO63
    requires r * qpf <= NsPerSecond * TWO64
    ensures 2 * e * qpf <= 2 * q * NsPerSecond + qpf
  {
    MulMono(e * TWO64, q * r + TWO63, qpf, qpf);
    assert (q * r + TWO63) * qpf == q * (r * qpf) + TWO63 * qpf;
    MulMono(0, r, 0, qpf);
    MulMono(q, q, r * qpf, NsPerSecond * TWO64);
    assert e * TWO64 * qpf == TWO63 * (2 * e * qpf);
    assert q * (NsPerSecond * TWO64) == TWO63 * (2 * q * NsPerSecond);
  }

  /** Scaling "q * r + 2^63 < (e + 1) * 2^64" by qpf, with
      1e9 * 2^64 < (r + 1) * qpf and q < 2^63. */
  lemma ScaledLower(e: int, q: int, r: int, qpf: int)
    requires 0 <= q < TWO63 && 0 < qpf < TWO63 && 0 <= r
    requires q * r + TWO63 < (e + 1) * TWO64
    requires NsPerSecond * TWO64 < (r + 1) * qpf
    ensures q * NsPerSecond < (e + 1) * qpf
  {
    var y := (e + 1) * TWO64;
    assert (q * r + TWO63) * qpf < y * qpf by {
      assert q * r + TWO63 < y;
      MulMono(q * r + TWO63, y - 1, qpf, qpf);
    }
    assert (q * r + TWO63) * qpf == q * (r * qpf) + TWO63 * qpf;
    assert (r + 1) * qpf == r * qpf + qpf;
    MulMono(q, q, NsPerSecond * TWO64 - qpf, r * qpf);
    MulMono(q, TWO63, qpf, qpf);
    assert q * (NsPerSecond * TWO64 - qpf) == TWO64 * (q * NsPerSecond) - q * qpf;
    assert y * qpf == TWO64 * ((e + 1) * qpf);
  }

  /** The rounded product over the calibrated multiplier lies within one
      nanosecond of the exact time qpcv * 1e9 / qpf, and at most half a
      nanosecond above it. */
  lemma RoundedProductVersusExactTime(qpf: int, qpcv: int)
    requires 0 < qpf < TWO63 && 0 <= qpcv < TWO63
    ensures var e := RoundedProduct(CalibratedLimbs(qpf), qpcv);
      2 * e * qpf <= 2 * qpcv * NsPerSecond + qpf && qpcv * NsPerSecond < (e + 1) * qpf
  {
    var r := Multiplier(qpf);
    var e := RoundedProduct(CalibratedLimbs(qpf), qpcv);
    var x := qpcv * r + TWO63;
    MulMono(0, qpcv, 0, r);
    assert e == x / TWO64;
    assert e * TWO64 <= x < (e + 1) * TWO64;
    ScaledUpper(e, qpcv, r, qpf);
    ScaledLower(e, qpcv, r, qpf);
  }

  /** A value at most half a nanosecond above an exact time that fits an
      int64 fits an int64 too. */
  lemma FitsInt64(t: int, q: int, qpf: int)
    requires 0 < qpf && 2 * t * qpf <= 2 * q * NsPerSecond + qpf
    requires q * NsPerSecond <= (TWO63 - 1) * qpf
    ensures t < TWO63
  {
    assert 2 * t * qpf <= (TWO64 - 1) * qpf;
    if t >= TWO63 {
      MulMono(TWO63, t, qpf, qpf);
    }
  }

  /** The bounds of a value carry over to one that is the same or one less. */
  lemma OneLess(t: int, e: int, q: int, qpf: int)
    requires 0 < qpf && e - 1 <= t <= e
    requires 2 * e * qpf <= 2 * q * NsPerSecond + qpf && q * NsPerSecond < (e + 1) * qpf
    ensures 2 * t * qpf <= 2 * q * NsPerSecond + qpf && q * NsPerSecond < (t + 2) * qpf
  {
    if t == e - 1 {
      assert t * qpf == e * qpf - qpf;
      assert (t + 2) * qpf == (e + 1) * qpf;
    }
  }

  /** qpc_to_int_old over the calibrated multiplier, while the exact time
      fits an int64: at most half a nanosecond above the exact time and less
      than two below it. */
  lemma OldVersusExactTime(qpf: int, qpcv: int)
    requires 0 < qpf < TWO63 && 0 <= qpcv < TWO63
    requires qpcv * NsPerSecond <= (TWO63 - 1) * qpf
    ensures var ns := QpcToIntOld(CalibratedLimbs(qpf), qpcv);
      2 * ns * qpf <= 2 * qpcv * NsPerSecond + qpf && qpcv * NsPerSecond < (ns + 2) * qpf
  {
    var m := CalibratedLimbs(qpf);
    var t, e := OldProduct(m, qpcv), RoundedProduct(m, qpcv);
    RoundedProductVersusExactTime(qpf, qpcv);
    OldProductNearRounded(m, qpcv);
    OneLess(t, e, qpcv, qpf);
    FitsInt64(t, qpcv, qpf);
    OldRounding(m, qpcv);
    assert QpcToIntOld(m, qpcv) == t;
  }

  /** The corrected converter, while the exact time fits an int64, is within
      one nanosecond of the exact time. */
  lemma RoundedVersusExactTime(qpf: int, qpcv: int)
    requires 0 < qpf < TWO63 && 0 <= qpcv < TWO63
    requires qpcv * NsPerSecond <= (TWO63 - 1) * qpf
    ensures var ns := QpcToIntRounded(CalibratedLimbs(qpf), qpcv);
      2 * ns * qpf <= 2 * qpcv * NsPerSecond + qpf && qpcv * NsPerSecond < (ns + 1) * qpf
  {
    var m := CalibratedLimbs(qpf);
    var e := RoundedProduct(m, qpcv);
    RoundedProductVersusExactTime(qpf, qpcv);
    FitsInt64(e, qpcv, qpf);
    RoundedRounding(m, qpcv);
    var ns := QpcToIntRounded(m, qpcv);
    assert ns == e;
    assert 2 * ns * qpf == 2 * e * qpf && (ns + 1) * qpf == (e + 1) * qpf;
  }

  // ---------------------------------------------------------------------
  // One second's worth of ticks.

  /** Converting qpf ticks with the corrected converter gives exactly one
      second, for every positive int64 frequency. */
  lemma RoundedOneSecondExact(qpf: int)
    requires 0 < qpf < TWO63
    ensures QpcToIntRounded(CalibratedLimbs(qpf), qpf) == NsPerSecond
  {
    var m := CalibratedLimbs(qpf);
    var r := Multiplier(qpf);
    assert (r + 1) * qpf == qpf * r + qpf;
    assert NsPerSecond * TWO64 < qpf * r + TWO63 < (NsPerSecond + 1) * TWO64;
    assert RoundedProduct(m, qpf) == NsPerSecond;
    RoundedRounding(m, qpf);
  }

  /** qpc_to_int_old on qpf ticks gives one second or one nanosecond less. */
  lemma OldOneSecond(qpf: int)
    requires 0 < qpf < TWO63
    ensures var ns := QpcToIntOld(CalibratedLimbs(qpf), qpf);
      ns == NsPerSecond || ns == NsPerSecond - 1
  {
    var m := CalibratedLimbs(qpf);
    var r := Multiplier(qpf);
    assert (r + 1) * qpf == qpf * r + qpf;
    assert NsPerSecond * TWO64 < qpf * r + TWO63 < (NsPerSecond + 1) * TWO64;
    assert RoundedProduct(m, qpf) == NsPerSecond;
    OldProductNearRounded(m, qpf);
    OldRounding(m, qpf);
  }

  /** At 3.8 GHz, 3.8e9 ticks are exactly one second, yet qpc_to_int_old
      reports 999,999,999 ns: the discarded cross product E*C carries the
      rounding decision. */
  lemma OldMissesOneSecond()
    ensures QpcToIntOld(CalibratedLimbs(3_800_000_000), 3_800_000_000) == NsPerSecond - 1
  {
    var m := CalibratedLimbs(3_800_000_000);
    assert Multiplier(3_800_000_000) == 4_854_406_335_186_724_109;
    LimbsUnique(Limbs(0, 1_130_254_551, 2_486_560_013));
    assert m == Limbs(0, 1_130_254_551, 2_486_560_013);
    assert OldProduct(m, 3_800_000_000) == 999_999_999;
    OldClosedForm(m, 3_800_000_000);
  }

  /** At qpf = 4,490,128,603 some counter values convert to more than one
      nanosecond below the exact time, close to the two-nanosecond bound of
      OldVersusExactTime: the truncated multiplier and the discarded E*C
      both lose a fraction. */
  lemma OldMissesTwoNanoseconds()
    ensures var qpf, qpcv := 4_490_128_603, 8_148_685_264_215_080_785;
      var ns := QpcToIntOld(CalibratedLimbs(qpf), qpcv);
      ns == 1_814_799_972_270_433_604 &&
      (ns + 1) * qpf < qpcv * NsPerSecond < (ns + 2) * qpf
  {
    var qpf, qpcv := 4_490_128_603, 8_148_685_264_215_080_785;
    var m := CalibratedLimbs(qpf);
    assert Multiplier(qpf) == 4_108_288_582_510_684_853;
    LimbsUnique(Limbs(0, 956_535_474, 4_216_826_549));
    assert m == Limbs(0, 956_535_474, 4_216_826_549);
    assert OldProduct(m, qpcv) == 1_814_799_972_270_433_604;
    OldClosedForm(m, qpcv);
  }

  /** At 3 GHz both converters give exactly one second for 3e9 ticks. */
  lemma ThreeGigahertzOneSecond()
    ensures QpcToIntOld(CalibratedLimbs(3_000_000_000), 3_000_000_000) == NsPerSecond
    ensures QpcToIntRounded(CalibratedLimbs(3_000_000_000), 3_000_000_000) == NsPerSecond
  {
    var m := CalibratedLimbs(3_000_000_000);
    assert Multiplier(3_000_000_000) == 6_148_914_691_236_517_205;
    LimbsUnique(Limbs(0, 1_431_655_765, 1_431_655_765));
    assert m == Limbs(0, 1_431_655_765, 1_431_655_765);
    assert OldProduct(m, 3_000_000_000) == NsPerSecond;
    OldClosedForm(m, 3_000_000_000);
    RoundedOneSecondExact(3_000_000_000);
  }

  /** At 10 MHz every tick is exactly 100 ns: 123,456,789 ticks are
      12,345,678,900 ns. */
  lemma TenMegahertzScenario()
    ensures QpcToIntOld(CalibratedLimbs(10_000_000), 123_456_789) == 12_345_678_900
  {
    MultiplierWhenQpfDivides(10_000_000);
    OldExactForIntegralMultiplier(CalibratedLimbs(10_000_000), 123_456_789);
  }
}
