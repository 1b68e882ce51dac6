/** The byte view of an arbitrary-precision natural: `big.Int.Bytes()` gives
    the minimal big-endian base-256 digits of the absolute value (no leading
    zero byte; the empty string for 0). */
module BigBytes {

  type Byte = x: int | 0 <= x < 256

  function Pow256(k: nat): (p: nat)
    ensures p >= 1
  {
    if k == 0 then 1 else 256 * Pow256(k - 1)
  }

  /** The natural a big-endian byte string denotes. */
  function Value(s: seq<Byte>): nat
  {
    if s == [] then 0 else Value(s[..|s| - 1]) * 256 + s[|s| - 1]
  }

  /** `big.Int.Bytes()` of a natural: minimal big-endian digits. */
  function Bytes(n: nat): (s: seq<Byte>)
    ensures s == [] <==> n == 0
    ensures s != [] ==> s[0] != 0
  {
    if n == 0 then [] else Bytes(n / 256) + [n % 256]
  }

  /** The digits denote the number they were taken from. */
  lemma {:induction false} ValueOfBytes(n: nat)
    ensures Value(Bytes(n)) == n
  {
    if n != 0 {
      var s := Bytes(n);
      assert s[..|s| - 1] == Bytes(n / 256);
      ValueOfBytes(n / 256);
    }
  }

  /** n needs at most k bytes exactly when n < 256^k. */
  lemma {:induction false} BytesLength(n: nat, k: nat)
    ensures |Bytes(n)| <= k <==> n < Pow256(k)
  {
    if n != 0 && k != 0 {
      BytesLength(n / 256, k - 1);
    }
  }

  /** Concatenation shifts the left part by the length of the right part. */
  lemma {:induction false} ValueAppend(a: seq<Byte>, b: seq<Byte>)
    ensures Value(a + b) == Value(a) * Pow256(|b|) + Value(b)
  {
    if b == [] {
      assert a + b == a;
    } else {
      var b' := b[..|b| - 1];
      assert (a + b)[..|a + b| - 1] == a + b';
      ValueAppend(a, b');
      calc {
        Value(a + b);
        Value(a + b') * 256 + b[|b| - 1];
        (Value(a) * Pow256(|b'|) + Value(b')) * 256 + b[|b| - 1];
        Value(a) * (Pow256(|b'|) * 256) + (Value(b') * 256 + b[|b| - 1]);
        Value(a) * Pow256(|b|) + Value(b);
      }
    }
  }

  /** A leading zero byte does not change the value. */
  lemma PrependZero(s: seq<Byte>)
    ensures Value([0] + s) == Value(s)
  {
    ValueAppend([0], s);
    assert Value([0]) == Value([]) * 256 + 0;
  }
}
