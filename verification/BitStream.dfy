/** Bytes as big-endian bit streams, the order in which codewords are filled and drawn. */
module BitStream {
  import opened Bitwise

  type Bits = seq<bool>

  /** Bit k of a byte buffer, most significant bit of each byte first. */
  predicate StreamBit(buf: seq<byte>, k: nat)
    requires k / 8 < |buf|
  {
    Bit(buf[k / 8], 7 - k % 8)
  }

  /** The first n bits of a buffer. */
  function Stream(buf: seq<byte>, n: nat): (s: Bits)
    requires n <= 8 * |buf|
    ensures |s| == n && forall k | 0 <= k < n :: s[k] == StreamBit(buf, k)
  {
    seq(n, k requires 0 <= k < n => StreamBit(buf, k))
  }

  function Zeros(n: nat): (s: Bits)
    ensures |s| == n && forall k | 0 <= k < n :: !s[k]
  {
    seq(n, _ => false)
  }

  // ----- Numbers as bits

  /** The n low bits of v, most significant first. */
  function BitsOf(v: nat, n: nat): (s: Bits)
    ensures |s| == n && forall k | 0 <= k < n :: s[k] == Bit(v, n - 1 - k)
  {
    seq(n, k requires 0 <= k < n => Bit(v, n - 1 - k))
  }

  function ValueOf(s: Bits): nat {
    if s == [] then 0 else 2 * ValueOf(s[..|s| - 1]) + Weight(s[|s| - 1])
  }

  lemma BitsOfSplit(v: nat, n: nat)
    requires n > 0
    ensures BitsOf(v, n) == BitsOf(v / 2, n - 1) + [v % 2 == 1]
  {
    forall k | 0 <= k < n
      ensures BitsOf(v, n)[k] == (BitsOf(v / 2, n - 1) + [v % 2 == 1])[k]
    {
      if k == n - 1 { ShrZero(v); }
    }
  }

  /** Bits and value determine each other. */
  lemma {:induction false} ValueOfBits(v: nat, n: nat)
    requires v < Pow2(n)
    ensures ValueOf(BitsOf(v, n)) == v
  {
    hide BitsOf;
    if n > 0 {
      BitsOfSplit(v, n);
      ValueOfBits(v / 2, n - 1);
      assert BitsOf(v, n)[..n - 1] == BitsOf(v / 2, n - 1);
    }
  }

  lemma {:induction false} ValueBounded(s: Bits)
    ensures ValueOf(s) < Pow2(|s|)
  {
    if s != [] { ValueBounded(s[..|s| - 1]); }
  }

  lemma {:induction false} BitsOfValue(s: Bits)
    ensures BitsOf(ValueOf(s), |s|) == s
  {
    hide BitsOf;
    if s != [] {
      var k := |s| - 1;
      BitsOfValue(s[..k]);
      BitsOfSplit(ValueOf(s), |s|);
    }
  }

  // ----- Filling a buffer

  /** The first `limit` bits of the buffer are s followed by zeros. */
  predicate Holds(buf: seq<byte>, s: Bits, limit: nat) {
    |s| <= limit <= 8 * |buf| && Stream(buf, limit) == s + Zeros(limit - |s|)
  }

  lemma ClearedHolds(buf: seq<byte>, limit: nat)
    requires limit <= 8 * |buf| && forall k | 0 <= k < limit :: buf[k / 8] == 0
    ensures Holds(buf, [], limit)
  {
    forall k | 0 <= k < limit
      ensures Stream(buf, limit)[k] == ([] + Zeros(limit))[k]
    {
      ZeroBit(7 - k % 8);
    }
  }

  lemma OrSets(b: byte, v: bool, i: nat, j: nat)
    requires i < 8 && j < 8
    ensures Or(b, Weight(v) * Pow2(i)) < 256
    ensures Bit(Or(b, Weight(v) * Pow2(i)), j) == (Bit(b, j) || (v && j == i))
  {
    hide Or;
    assert Pow2(8) == 256;
    Pow2Below(i, 8);
    Bounded(b, Weight(v) * Pow2(i), 8);
    OrBit(b, Weight(v) * Pow2(i), j);
    Pow2Bit(i, j);
    ZeroBit(j);
  }

  /** Or-ing the next bit into place appends it. */
  lemma HoldsNext(buf: seq<byte>, s: Bits, limit: nat, v: bool, next: seq<byte>)
    requires Holds(buf, s, limit) && |s| < limit
    requires var k := |s|;
             var b := Or(buf[k / 8], Weight(v) * Pow2(7 - k % 8));
             b < 256 && next == buf[k / 8 := b]
    ensures Holds(next, s + [v], limit)
  {
    hide Or, Bit, Pow2;
    var k := |s|;
    assert Stream(buf, limit)[k] == (s + Zeros(limit - k))[k];
    forall j | 0 <= j < limit
      ensures Stream(next, limit)[j] == (s + [v] + Zeros(limit - k - 1))[j]
    {
      assert Stream(buf, limit)[j] == (s + Zeros(limit - k))[j];
      OrSets(buf[k / 8], v, 7 - k % 8, 7 - j % 8);
    }
  }

  /** Append the low bits of a number to the buffer, which holds s and has zeros up to the limit. */
  method AppendBitsToBuffer(val: nat, numBits: nat, buffer: array<byte>, bitLen: nat, ghost s: Bits, ghost limit: nat)
    returns (newLen: nat)
    requires numBits <= 16 && Shr(val, numBits) == 0
    requires Holds(buffer[..], s, limit) && bitLen == |s| && bitLen + numBits <= limit
    modifies buffer
    ensures newLen == bitLen + numBits && Holds(buffer[..], s + BitsOf(val, numBits), limit)
    ensures forall k | limit <= 8 * k && k < buffer.Length :: buffer[k] == old(buffer[k])
  {
    hide Or, Shr, Pow2, Holds;
    newLen := bitLen;
    ghost var t := s;
    ghost var bits := BitsOf(val, numBits);
    var i := numBits - 1;
    assert s + bits[..0] == s;
    HoldsBound(buffer[..], s, limit);
    while i >= 0
      invariant -1 <= i < numBits && newLen == bitLen + numBits - 1 - i
      invariant Holds(buffer[..], s + bits[..numBits - 1 - i], limit)
      invariant forall k | limit <= 8 * k && k < buffer.Length :: buffer[k] == old(buffer[k])
    {
      ghost var before, done := buffer[..], s + bits[..numBits - 1 - i];
      var bit := Shr(val, i) % 2;
      OrSets(buffer[newLen / 8], bit == 1, 7 - newLen % 8, 0);
      buffer[newLen / 8] := Or(buffer[newLen / 8], bit * Pow2(7 - newLen % 8));
      HoldsNext(before, done, limit, bit == 1, buffer[..]);
      assert done + [bit == 1] == s + bits[..numBits - i];
      newLen := newLen + 1;
      i := i - 1;
    }
    assert bits[..numBits] == bits;
  }

  lemma HoldsBound(buf: seq<byte>, s: Bits, limit: nat)
    requires Holds(buf, s, limit)
    ensures |s| <= limit <= 8 * |buf|
  {
  }

  // ----- Bytes and streams determine each other

  /** The bytes with the given bits. */
  function BytesOf(s: Bits): (b: seq<byte>)
    requires |s| % 8 == 0
    ensures |b| == |s| / 8
  {
    seq(|s| / 8, i requires 0 <= i < |s| / 8 => ByteAt(s, i))
  }

  function ByteAt(s: Bits, i: nat): byte
    requires 8 * i + 8 <= |s|
  {
    ValueBounded(s[8 * i..8 * i + 8]);
    assert Pow2(8) == 256;
    ValueOf(s[8 * i..8 * i + 8])
  }

  lemma StreamOfBytes(s: Bits)
    requires |s| % 8 == 0
    ensures Stream(BytesOf(s), |s|) == s
  {
    hide ValueOf, Bit;
    forall k | 0 <= k < |s|
      ensures StreamBit(BytesOf(s), k) == s[k]
    {
      var i := k / 8;
      var part := s[8 * i..8 * i + 8];
      BitsOfValue(part);
      assert BitsOf(ValueOf(part), 8)[k % 8] == part[k % 8];
    }
  }

  lemma StreamDetermines(a: seq<byte>, b: seq<byte>)
    requires |a| == |b| && Stream(a, 8 * |a|) == Stream(b, 8 * |b|)
    ensures a == b
  {
    hide Bit;
    forall i | 0 <= i < |a|
      ensures a[i] == b[i]
    {
      forall j: nat | j < 8
        ensures Bit(a[i], j) == Bit(b[i], j)
      {
        var k := 8 * i + 7 - j;
        assert Stream(a, 8 * |a|)[k] == Stream(b, 8 * |b|)[k];
      }
      assert Pow2(8) == 256;
      BitsDetermine(a[i], b[i], 8);
    }
  }

  lemma BytesOfStream(a: seq<byte>)
    ensures BytesOf(Stream(a, 8 * |a|)) == a
  {
    hide Stream, BytesOf;
    StreamOfBytes(Stream(a, 8 * |a|));
    StreamDetermines(BytesOf(Stream(a, 8 * |a|)), a);
  }
}
