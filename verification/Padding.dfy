/** What follows the segments in the data codewords. */
module Padding {
  import opened Bitwise
  import opened BitStream
  import opened DataStream
  import opened Tables
  import opened Versions
  import opened Candidates

  /** The first codeword that is all padding: behind the used bits, four zeros and the rest of a byte, or the end. */
  function FirstPad(used: nat, n: nat): nat {
    if (used + 4 + 7) / 8 < n then (used + 4 + 7) / 8 else n
  }

  /** Terminator and alignment reach exactly up to there. */
  lemma ZerosReach(used: nat, n: nat)
    requires used <= 8 * n
    ensures var t := TerminatorBits(used, 8 * n);
            used + t + (8 - (used + t) % 8) % 8 == 8 * FirstPad(used, n)
  {
    var t := TerminatorBits(used, 8 * n);
    RoundUp(used + t);
    if t == 4 {
      BelowEnd(used + 4, n);
    }
  }

  lemma RoundUp(w: nat)
    ensures w + (8 - w % 8) % 8 == 8 * ((w + 7) / 8)
  {
    var q, r := w / 8, w % 8;
    assert w == 8 * q + r;
    if r == 0 {
      assert (w + 7) / 8 == q;
    } else {
      assert (w + 7) / 8 == q + 1;
    }
  }

  lemma BelowEnd(w: nat, n: nat)
    requires w <= 8 * n
    ensures (w + 7) / 8 <= n
  {
  }

  lemma TailIs(used: nat, n: nat)
    requires used <= 8 * n
    ensures used <= 8 * FirstPad(used, n) <= 8 * n
    ensures Tail(used, 8 * n) == Zeros(8 * FirstPad(used, n) - used) + PadBits(n - FirstPad(used, n))
  {
    hide PadBits, TerminatorBits, FirstPad;
    ZerosReach(used, n);
    FirstPadBound(used, n);
    var t, p := TerminatorBits(used, 8 * n), FirstPad(used, n);
    var a := (8 - (used + t) % 8) % 8;
    assert Zeros(t) + Zeros(a) == Zeros(8 * p - used);
    assert (8 * n - used - t - a) / 8 == n - p;
  }

  lemma FirstPadBound(used: nat, n: nat)
    ensures FirstPad(used, n) <= n
  {
  }

  /** The byte that pads in the k-th place. */
  function PadByte(k: nat): byte {
    if k % 2 == 0 then 0xEC else 0x11
  }

  lemma PadLast(n: nat)
    requires n > 0
    ensures PadBits(n) == PadBits(n - 1) + BitsOf(PadByte(n - 1), 8)
  {
    hide BitsOf;
  }

  lemma {:induction false} PadAt(n: nat, k: nat)
    requires k < n
    ensures PadBits(n)[8 * k..8 * k + 8] == BitsOf(PadByte(k), 8)
  {
    hide BitsOf, PadBits, PadByte;
    PadLast(n);
    var s, t := PadBits(n - 1), BitsOf(PadByte(n - 1), 8);
    if k < n - 1 {
      PadAt(n - 1, k);
      assert (s + t)[8 * k..8 * k + 8] == s[8 * k..8 * k + 8];
    } else {
      assert (s + t)[|s|..|s| + 8] == t;
    }
  }

  lemma ByteOfSlice(s: Bits, k: nat, b: byte)
    requires |s| % 8 == 0 && 8 * k + 8 <= |s| && s[8 * k..8 * k + 8] == BitsOf(b, 8)
    ensures BytesOf(s)[k] == b
  {
    hide BitsOf;
    assert Pow2(8) == 256;
    ValueOfBits(b, 8);
  }

  lemma FullStreamIs(ps: seq<Payload>, v: Version, n: nat)
    requires |PayloadsBits(ps, v)| <= 8 * n
    ensures var p, used := FirstPad(|PayloadsBits(ps, v)|, n), |PayloadsBits(ps, v)|;
            && used <= 8 * p <= 8 * n
            && FullStream(ps, v, 8 * n) == PayloadsBits(ps, v) + Zeros(8 * p - used) + PadBits(n - p)
  {
    hide PayloadsBits, Tail, FirstPad, PadBits;
    TailIs(|PayloadsBits(ps, v)|, n);
  }

  lemma PadOfStream(s: Bits, z: Bits, p: nat, n: nat, k: nat)
    requires |s + z| == 8 * p && p <= k < n
    ensures (s + z + PadBits(n - p))[8 * k..8 * k + 8] == BitsOf(PadByte(k - p), 8)
  {
    hide BitsOf, PadBits;
    PadAt(n - p, k - p);
    var t := PadBits(n - p);
    assert (s + z + t)[8 * k..8 * k + 8] == t[8 * (k - p)..8 * (k - p) + 8];
  }

  /**
   The data codewords hold the bits of the segments, zeros up to the first codeword that is all padding, and
   from there on the bytes 0xEC and 0x11 in turn.
   */
  lemma DataCodewordsPadded(ps: seq<Payload>, v: Version, ecl: Ecc)
    requires Fits(ps, v, ecl)
    ensures var used, n, data := |PayloadsBits(ps, v)|, NumDataCodewords(v, ecl), DataCodewords(ps, v, ecl);
            var p := if n <= (used + 4 + 7) / 8 then n else (used + 4 + 7) / 8;
            && |data| == n && used <= 8 * p
            && Stream(data, 8 * n)[..used] == PayloadsBits(ps, v)
            && (forall j | used <= j < 8 * p :: !Stream(data, 8 * n)[j])
            && (forall k | p <= k < n :: data[k] == if (k - p) % 2 == 0 then 0xEC else 0x11)
  {
    hide PayloadsBits, NumDataCodewords, FullStream, PadBits, FirstPad, BytesOf, Encodable, BitsOf;
    var n := NumDataCodewords(v, ecl);
    var used, data, full := |PayloadsBits(ps, v)|, DataCodewords(ps, v, ecl), FullStream(ps, v, n * 8);
    var p := FirstPad(used, n);
    FirstPadIs(used, n);
    FullStreamIs(ps, v, n);
    StreamOfBytes(full);
    forall k | p <= k < n
      ensures data[k] == PadByte(k - p)
    {
      PadOfStream(PayloadsBits(ps, v), Zeros(8 * p - used), p, n, k);
      ByteOfSlice(full, k, PadByte(k - p));
    }
  }

  lemma FirstPadIs(used: nat, n: nat)
    ensures FirstPad(used, n) == if n <= (used + 4 + 7) / 8 then n else (used + 4 + 7) / 8
  {
  }
}
