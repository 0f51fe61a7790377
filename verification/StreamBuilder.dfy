/** Writing the data stream into the symbol's buffer. */
module StreamBuilder {
  import opened Bitwise
  import opened BitStream
  import opened Segments
  import opened DataStream
  import opened Tables

  lemma ShrNothing(v: nat, n: nat)
    requires v < Pow2(n)
    ensures Shr(v, n) == 0
  {
    ShrBounded(v, n, 0);
  }

  lemma OneBit(v: bool)
    ensures Shr(Weight(v), 1) == 0 && BitsOf(Weight(v), 1) == [v]
  {
  }

  /** Copy the data bits of a segment, one at a time. */
  method AppendData(seg: Segment, qrcode: array<byte>, bitLen: nat, ghost s: Bits, ghost limit: nat)
    returns (newLen: nat)
    requires Readable(seg) && seg.data != qrcode
    requires Holds(qrcode[..], s, limit) && bitLen == |s| && bitLen + seg.bitLength <= limit
    modifies qrcode
    ensures newLen == bitLen + seg.bitLength && Holds(qrcode[..], s + SegmentData(seg), limit)
  {
    hide Holds, BitsOf, Shr;
    newLen := bitLen;
    ghost var data := SegmentData(seg);
    assert s + data[..0] == s;
    for j := 0 to seg.bitLength
      invariant SegmentData(seg) == data
      invariant newLen == bitLen + j
      invariant Holds(qrcode[..], s + data[..j], limit)
    {
      var bit := Shr(seg.data[seg.start + j / 8], 7 - j % 8) % 2;
      assert data[j] == (bit == 1);
      OneBit(data[j]);
      newLen := AppendBitsToBuffer(bit, 1, qrcode, newLen, s + data[..j], limit);
      assert s + data[..j] + [data[j]] == s + data[..j + 1];
    }
    assert data[..seg.bitLength] == data;
  }

  method AppendSegment(seg: Segment, version: Version, qrcode: array<byte>, bitLen: nat,
                       ghost s: Bits, ghost limit: nat)
    returns (newLen: nat)
    requires Readable(seg) && seg.data != qrcode && CountFits(PayloadOf(seg), version)
    requires Holds(qrcode[..], s, limit) && bitLen == |s| && bitLen + |PayloadBits(PayloadOf(seg), version)| <= limit
    modifies qrcode
    ensures newLen == bitLen + |PayloadBits(PayloadOf(seg), version)|
    ensures Holds(qrcode[..], s + PayloadBits(PayloadOf(seg), version), limit)
  {
    hide Holds, BitsOf, Shr, SegmentData, NumCharCountBits, Indicator, Pow2;
    ghost var data := SegmentData(seg);
    var m, cc := Indicator(seg.mode), NumCharCountBits(seg.mode, version);
    assert m < Pow2(4) by { SixteenIsPow2(); }
    ShrNothing(m, 4);
    ShrNothing(seg.numChars, cc);
    newLen := AppendBitsToBuffer(m, 4, qrcode, bitLen, s, limit);
    newLen := AppendBitsToBuffer(seg.numChars, cc, qrcode, newLen, s + BitsOf(m, 4), limit);
    assert SegmentData(seg) == data;
    newLen := AppendData(seg, qrcode, newLen, s + BitsOf(m, 4) + BitsOf(seg.numChars, cc), limit);
    assert s + BitsOf(m, 4) + BitsOf(seg.numChars, cc) + data == s + PayloadBits(PayloadOf(seg), version);
  }

  lemma SixteenIsPow2()
    ensures Pow2(4) == 16
  {
  }

  method AppendSegments(segs: seq<Segment>, version: Version, qrcode: array<byte>,
                        ghost ps: seq<Payload>, ghost limit: nat)
    returns (bitLen: nat)
    requires AllReadable(segs) && (forall i | 0 <= i < |segs| :: segs[i].data != qrcode) && ps == Payloads(segs)
    requires Encodable(ps, version) && |PayloadsBits(ps, version)| <= limit && Holds(qrcode[..], [], limit)
    modifies qrcode
    ensures bitLen == |PayloadsBits(ps, version)| && Holds(qrcode[..], PayloadsBits(ps, version), limit)
  {
    hide Holds, PayloadBits, PayloadsBits, SegmentData, CountFits;
    bitLen := 0;
    EmptyStream(version);
    for i := 0 to |segs|
      invariant ps == Payloads(segs)
      invariant bitLen == |PayloadsBits(ps[..i], version)|
      invariant Holds(qrcode[..], PayloadsBits(ps[..i], version), limit)
    {
      PayloadsBitsNext(ps, i, version);
      PrefixLonger(ps, i + 1, version);
      bitLen := AppendSegment(segs[i], version, qrcode, bitLen, PayloadsBits(ps[..i], version), limit);
    }
    assert ps[..|segs|] == ps;
  }

  lemma ZerosAre(n: nat)
    ensures BitsOf(0, n) == Zeros(n) && Shr(0, n) == 0
  {
    hide Shr;
    ZeroBit(n);
    forall k | 0 <= k < n
      ensures BitsOf(0, n)[k] == Zeros(n)[k]
    {
      ZeroBit(n - 1 - k);
    }
  }

  /** Terminator, alignment and pad bytes. */
  method AppendTail(qrcode: array<byte>, used: nat, capacity: nat, ghost s: Bits)
    requires |s| == used <= capacity && capacity % 8 == 0 && Holds(qrcode[..], s, capacity)
    modifies qrcode
    ensures Holds(qrcode[..], s + Tail(used, capacity), capacity)
  {
    hide Holds, BitsOf, Shr, PadBits, Zeros, Tail;
    var terminatorBits := capacity - used;
    if terminatorBits > 4 { terminatorBits := 4; }
    assert terminatorBits == TerminatorBits(used, capacity);
    ZerosAre(terminatorBits);
    var bitLen := AppendBitsToBuffer(0, terminatorBits, qrcode, used, s, capacity);
    var align := (8 - bitLen % 8) % 8;
    TailParts(s, capacity, terminatorBits, align);
    ZerosAre(align);
    bitLen := AppendBitsToBuffer(0, align, qrcode, bitLen, s + Zeros(terminatorBits), capacity);
    assert bitLen % 8 == 0;
    AppendPadding(qrcode, bitLen, capacity, s + Zeros(terminatorBits) + Zeros(align));
  }

  lemma TailIs(used: nat, capacity: nat, t: nat, a: nat)
    requires used <= capacity && capacity % 8 == 0
    requires t == TerminatorBits(used, capacity) && a == (8 - (used + t) % 8) % 8 && used + t + a <= capacity
    ensures Tail(used, capacity) == Zeros(t) + Zeros(a) + PadBits((capacity - (used + t + a)) / 8)
  {
    hide PadBits, Zeros, TerminatorBits;
    assert capacity - used - t - a == capacity - (used + t + a);
  }

  lemma TailParts(s: Bits, capacity: nat, t: nat, a: nat)
    requires |s| <= capacity && capacity % 8 == 0
    requires t == TerminatorBits(|s|, capacity) && a == (8 - (|s| + t) % 8) % 8
    ensures (|s| + t + a) % 8 == 0 && |s| + t + a <= capacity
    ensures s + Zeros(t) + Zeros(a) + PadBits((capacity - (|s| + t + a)) / 8) == s + Tail(|s|, capacity)
  {
    hide PadBits, Zeros, Tail;
    AlignUp(|s| + t, capacity);
    TailIs(|s|, capacity, t, a);
    Regroup(s, Zeros(t), Zeros(a), PadBits((capacity - (|s| + t + a)) / 8));
  }

  lemma Regroup(s: Bits, z: Bits, y: Bits, x: Bits)
    ensures s + z + y + x == s + (z + y + x)
  {
  }

  lemma AlignUp(w: nat, capacity: nat)
    requires w <= capacity && capacity % 8 == 0
    ensures (w + (8 - w % 8) % 8) % 8 == 0 && w + (8 - w % 8) % 8 <= capacity
  {
    var q, r := w / 8, w % 8;
    assert w == 8 * q + r;
    if r > 0 {
      assert capacity == 8 * (capacity / 8);
      assert w + (8 - r) == 8 * (q + 1);
    }
  }

  method AppendPadding(qrcode: array<byte>, start: nat, capacity: nat, ghost t: Bits)
    requires |t| == start <= capacity && start % 8 == 0 && capacity % 8 == 0 && Holds(qrcode[..], t, capacity)
    modifies qrcode
    ensures Holds(qrcode[..], t + PadBits((capacity - start) / 8), capacity)
  {
    hide Holds, BitsOf, Shr, Xor, PadBits;
    var bitLen := start;
    var padByte := 0xEC;
    ghost var n := 0;
    PadStart(t);
    while bitLen < capacity
      invariant bitLen == start + 8 * n <= capacity
      invariant padByte == if n % 2 == 0 then 0xEC else 0x11
      invariant Holds(qrcode[..], t + PadBits(n), capacity)
    {
      PadNext(t, n);
      bitLen := AppendBitsToBuffer(padByte, 8, qrcode, bitLen, t + PadBits(n), capacity);
      padByte := Xor(padByte, Xor(0xEC, 0x11));
      n := n + 1;
    }
  }

  lemma PadStart(t: Bits)
    ensures t + PadBits(0) == t
    ensures Xor(0xEC, Xor(0xEC, 0x11)) == 0x11 && Xor(0x11, Xor(0xEC, 0x11)) == 0xEC
    ensures Shr(0xEC, 8) == 0 && Shr(0x11, 8) == 0
  {
    hide Xor, Shr;
    XorAssociates(0xEC, 0xEC, 0x11);
    XorSelf(0xEC);
    XorSelf(0x11);
    XorCommutes(0xEC, 0x11);
    XorAssociates(0x11, 0x11, 0xEC);
    assert Pow2(8) == 256;
    ShrNothing(0xEC, 8);
    ShrNothing(0x11, 8);
  }

  lemma PadNext(t: Bits, n: nat)
    ensures t + PadBits(n + 1) == t + PadBits(n) + BitsOf(if n % 2 == 0 then 0xEC else 0x11, 8)
  {
    hide BitsOf;
  }
}
