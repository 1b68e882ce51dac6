/** The package state that `init` fills in once at startup: the multiplier
    limbs nsPerQPCv, the 32.32 multiplier nsPerQPCfp, the start counter
    value and the Unix epoch offset; and the wall-clock reading built on it. */
module Calibration {
  import opened GoInts
  import opened BigBytes
  import opened FixedPoint
  import opened TickConverter

  /** The outcome of a Win32 query: `ret == 0` is a failure, otherwise the
      value written through the out-pointer. */
  datatype Syscall = Failed | Returned(value: int)

  datatype PanicReason = FrequencyQueryFailed | QpfOutOfRange | CounterQueryFailed

  datatype InitOutcome = Initialized | Panicked(reason: PanicReason)

  /** The padding loop of `init`: prepend zero bytes until the string has
      n bytes. The value the bytes denote does not change. */
  method PadBytes(s: seq<Byte>, n: nat) returns (p: seq<Byte>)
    requires |s| <= n
    ensures |p| == n && Value(p) == Value(s)
    ensures p[n - |s|..] == s && forall k :: 0 <= k < n - |s| ==> p[k] == 0
  {
    p := s;
    while |p| != n
      invariant |s| <= |p| <= n && Value(p) == Value(s)
      invariant p[|p| - |s|..] == s && forall k :: 0 <= k < |p| - |s| ==> p[k] == 0
      decreases n - |p|
    {
      PrependZero(p);
      p := [0] + p;
    }
  }

  class QpcCalibration {
    var nsPerQPCv: array<int>   // [3]uint32: the limbs A, B, C
    var nsPerQPCfp: int         // uint64: A.B as 32.32
    var startQPC: int           // int64
    var unixEpochOffsetNs: int  // int64

    ghost predicate Valid()
      reads this, nsPerQPCv
    {
      nsPerQPCv.Length == 3 &&
      IsUint32(nsPerQPCv[0]) && IsUint32(nsPerQPCv[1]) && IsUint32(nsPerQPCv[2]) &&
      IsUint64(nsPerQPCfp) && IsInt64(startQPC) && IsInt64(unixEpochOffsetNs)
    }

    /** The stored limbs A.BC. */
    function StoredLimbs(): (m: Limbs)
      reads this, nsPerQPCv
      requires Valid()
      ensures ValidLimbs(m)
    {
      Limbs(nsPerQPCv[0], nsPerQPCv[1], nsPerQPCv[2])
    }

    /** The package variables before `init` runs: Go's zero values. */
    constructor ()
      ensures Valid() && fresh(nsPerQPCv)
      ensures nsPerQPCv[..] == [0, 0, 0] && nsPerQPCfp == 0
      ensures startQPC == 0 && unixEpochOffsetNs == 0
    {
      nsPerQPCv := new int[3](_ => 0);
      nsPerQPCfp, startQPC, unixEpochOffsetNs := 0, 0, 0;
    }

    /** `init`: query the frequency, compute floor(1e9 * 2^64 / qpf), pad its
        bytes to 12, split them into three big-endian 32-bit limbs, pack the
        top two as 32.32, then record the start counter value and the epoch
        offset (computed in floating point by the caller). */
    method Init(qpfCall: Syscall, qpcCall: Syscall, epochOffsetNs: int) returns (outcome: InitOutcome)
      requires Valid()
      requires qpfCall.Returned? ==> 0 < qpfCall.value < TWO63
      requires qpcCall.Returned? ==> IsInt64(qpcCall.value)
      requires IsInt64(epochOffsetNs)
      modifies this, nsPerQPCv
      ensures Valid() && nsPerQPCv == old(nsPerQPCv)
      ensures outcome != Panicked(QpfOutOfRange)
      ensures outcome == Initialized <==> qpfCall.Returned? && qpcCall.Returned?
      ensures qpfCall.Failed? ==> outcome == Panicked(FrequencyQueryFailed) && unchanged(this, nsPerQPCv)
      ensures qpfCall.Returned? ==>
        StoredLimbs() == CalibratedLimbs(qpfCall.value) &&
        nsPerQPCfp == nsPerQPCv[0] * TWO32 + nsPerQPCv[1] == Multiplier(qpfCall.value) / TWO32
      ensures qpfCall.Returned? && qpcCall.Failed? ==>
        outcome == Panicked(CounterQueryFailed) &&
        startQPC == old(startQPC) && unixEpochOffsetNs == old(unixEpochOffsetNs)
      ensures outcome == Initialized ==> startQPC == qpcCall.value && unixEpochOffsetNs == epochOffsetNs
    {
      if qpfCall.Failed? {
        return Panicked(FrequencyQueryFailed);
      }
      var qpf := qpfCall.value;
      var mul := NsPerSecond * TWO64;
      var res: nat := mul / qpf;

      var resBytes := Bytes(res);
      ValueOfBytes(res);
      MultiplierInRange(qpf);
      if |resBytes| > 12 {
        assert false;
        return Panicked(QpfOutOfRange);
      }
      resBytes := PadBytes(resBytes, 12);
      StoreLimbs(resBytes);
      LimbsUnique(StoredLimbs());

      nsPerQPCfp := Fixed32x32(StoredLimbs());

      if qpcCall.Failed? {
        return Panicked(CounterQueryFailed);
      }
      startQPC := qpcCall.value;
      unixEpochOffsetNs := epochOffsetNs;
      return Initialized;
    }

    /** The limb loop of `init`: big-endian word k of the 12 bytes goes to
        nsPerQPCv[k]. */
    method StoreLimbs(resBytes: seq<Byte>)
      requires Valid() && |resBytes| == 12
      modifies nsPerQPCv
      ensures Valid()
      ensures nsPerQPCv[..] == [Word32(resBytes[0..4]), Word32(resBytes[4..8]), Word32(resBytes[8..12])]
      ensures LimbValue(StoredLimbs()) == Value(resBytes)
    {
      var i := 0;
      while i < |resBytes|
        invariant 0 <= i <= 12 && i % 4 == 0
        invariant forall k :: 0 <= k < i / 4 ==> nsPerQPCv[k] == Word32(resBytes[4 * k..4 * k + 4])
        invariant forall k :: 0 <= k < 3 ==> IsUint32(nsPerQPCv[k])
      {
        nsPerQPCv[i / 4] := Word32(resBytes[i..i + 4]);
        i := i + 4;
      }
      TwelveBytes(resBytes);
    }

    /** `unixnanoseconds`: a nanosecond reading since counter zero plus the
        epoch offset, as a wrapping int64 addition. */
    function UnixNanoseconds(nanos: int): (ns: int)
      reads this, nsPerQPCv
      requires Valid() && IsInt64(nanos)
      ensures IsInt64(ns) && (ns - (nanos + unixEpochOffsetNs)) % TWO64 == 0
      ensures IsInt64(nanos + unixEpochOffsetNs) ==> ns == nanos + unixEpochOffsetNs
    {
      Int64(Uint64(nanos + unixEpochOffsetNs))
    }

    /** A wall clock over qpc_to_int_old never goes backwards while neither
        the conversion nor the offset addition wraps, and it advances by
        exactly as much as the converted counter. */
    lemma WallClockMonotone(q1: int, q2: int)
      requires Valid() && 0 <= q1 <= q2 < TWO63
      requires OldProduct(StoredLimbs(), q2) < TWO63
      requires QpcToIntOld(StoredLimbs(), q2) + unixEpochOffsetNs < TWO63
      ensures var n1, n2 := QpcToIntOld(StoredLimbs(), q1), QpcToIntOld(StoredLimbs(), q2);
        UnixNanoseconds(n1) <= UnixNanoseconds(n2) &&
        UnixNanoseconds(n2) - UnixNanoseconds(n1) == n2 - n1
    {
      var m := StoredLimbs();
      var n1, n2 := QpcToIntOld(m, q1), QpcToIntOld(m, q2);
      OldMonotone(m, q1, q2);
      OldClosedForm(m, q1);
      assert 0 <= n1 <= n2;
      assert IsInt64(n1 + unixEpochOffsetNs) && IsInt64(n2 + unixEpochOffsetNs);
    }
  }
}
