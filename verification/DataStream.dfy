/** The data stream: segments one after the other, terminator, alignment and padding; and its parser. */
module DataStream {
  import opened Bitwise
  import opened BitStream
  import opened Segments
  import opened Tables

  /** What a segment says: its mode, its count of characters and its data bits. */
  datatype Payload = Payload(mode: Mode, numChars: nat, bits: Bits)

  datatype Option<T> = None | Some(value: T)

  function NumCharCountBits(mode: Mode, v: Version): (n: nat)
    ensures n <= 16
  {
    var i := (v + 7) / 17;
    match mode
    case Numeric => [10, 12, 14][i]
    case Alphanumeric => [9, 11, 13][i]
    case Byte => [8, 16, 16][i]
    case Kanji => [8, 10, 12][i]
    case Eci => 0
  }

  /** The widths change with the version twice: after 9 and after 26. */
  lemma CountWidths(mode: Mode, v: Version)
    ensures NumCharCountBits(mode, v) ==
            match mode
            case Numeric => if v <= 9 then 10 else if v <= 26 then 12 else 14
            case Alphanumeric => if v <= 9 then 9 else if v <= 26 then 11 else 13
            case Byte => if v <= 9 then 8 else 16
            case Kanji => if v <= 9 then 8 else if v <= 26 then 10 else 12
            case Eci => 0
  {
  }

  function PayloadBits(p: Payload, v: Version): (s: Bits)
    ensures |s| == 4 + NumCharCountBits(p.mode, v) + |p.bits|
  {
    BitsOf(Indicator(p.mode), 4) + BitsOf(p.numChars, NumCharCountBits(p.mode, v)) + p.bits
  }

  function PayloadsBits(ps: seq<Payload>, v: Version): Bits {
    if ps == [] then [] else PayloadsBits(ps[..|ps| - 1], v) + PayloadBits(ps[|ps| - 1], v)
  }

  predicate CountFits(p: Payload, v: Version) {
    p.numChars < Pow2(NumCharCountBits(p.mode, v))
  }

  /** Every count fits its field, and the stream is not too long for the encoder. */
  predicate Encodable(ps: seq<Payload>, v: Version) {
    (forall i | 0 <= i < |ps| :: CountFits(ps[i], v)) && |PayloadsBits(ps, v)| <= INT16_MAX
  }

  /** The length of the stream, or -1 if the segments are not encodable at this version. */
  function TotalBits(ps: seq<Payload>, v: Version): int {
    if Encodable(ps, v) then |PayloadsBits(ps, v)| else -1
  }

  // ----- Segments in memory

  function Arrays(segs: seq<Segment>): set<object> {
    set s | s in segs && s.data != null :: s.data
  }

  predicate AllReadable(segs: seq<Segment>) {
    forall i | 0 <= i < |segs| :: Readable(segs[i])
  }

  function PayloadOf(seg: Segment): Payload
    requires Readable(seg)
    reads if seg.data == null then {} else {seg.data}
  {
    Payload(seg.mode, seg.numChars, SegmentData(seg))
  }

  function Payloads(segs: seq<Segment>): (ps: seq<Payload>)
    requires AllReadable(segs)
    reads Arrays(segs)
    ensures |ps| == |segs| && forall i | 0 <= i < |segs| :: ps[i] == PayloadOf(segs[i])
  {
    seq(|segs|, i requires 0 <= i < |segs| && Readable(segs[i]) reads Arrays(segs) => PayloadOf(segs[i]))
  }

  lemma {:induction false} PrefixLonger(ps: seq<Payload>, i: nat, v: Version)
    requires i <= |ps|
    ensures |PayloadsBits(ps[..i], v)| <= |PayloadsBits(ps, v)|
    decreases |ps|
  {
    hide PayloadBits;
    if i < |ps| {
      PrefixLonger(ps[..|ps| - 1], i, v);
      assert ps[..|ps| - 1][..i] == ps[..i];
    } else {
      assert ps[..i] == ps;
    }
  }

  lemma PayloadsBitsNext(ps: seq<Payload>, i: nat, v: Version)
    requires i < |ps|
    ensures PayloadsBits(ps[..i + 1], v) == PayloadsBits(ps[..i], v) + PayloadBits(ps[i], v)
    ensures PayloadsBits(ps[..0], v) == []
  {
    hide PayloadBits;
    assert ps[..i + 1][..i] == ps[..i];
  }

  /** Add up the lengths of the segments, giving up when a count or the sum is too large. */
  method GetTotalBits(segs: seq<Segment>, version: Version) returns (result: int)
    requires AllReadable(segs)
    ensures result == TotalBits(Payloads(segs), version)
  {
    hide PayloadBits, PayloadsBits, SegmentData, NumCharCountBits, Pow2;
    ghost var ps := Payloads(segs);
    result := 0;
    EmptyStream(version);
    for i := 0 to |segs|
      invariant ps == Payloads(segs)
      invariant result == |PayloadsBits(ps[..i], version)| <= INT16_MAX
      invariant forall k | 0 <= k < i :: CountFits(ps[k], version)
    {
      PayloadsBitsNext(ps, i, version);
      PrefixLonger(ps, i + 1, version);
      var ccbits := NumCharCountBits(segs[i].mode, version);
      if segs[i].numChars >= Pow2(ccbits) {
        assert !CountFits(ps[i], version);
        return -1;
      }
      result := result + 4 + ccbits + segs[i].bitLength;
      if result > INT16_MAX { return -1; }
    }
    assert ps[..|segs|] == ps;
  }

  lemma EmptyStream(v: Version)
    ensures PayloadsBits([], v) == []
  {
  }

  // ----- Terminator and padding

  /** The pad bytes 0xEC and 0x11 in turn. */
  function PadBits(n: nat): (s: Bits)
    ensures |s| == 8 * n
  {
    if n == 0 then [] else PadBits(n - 1) + BitsOf(if n % 2 == 1 then 0xEC else 0x11, 8)
  }

  function TerminatorBits(used: nat, capacity: nat): nat
    requires used <= capacity
  {
    if capacity - used > 4 then 4 else capacity - used
  }

  /** Everything after the segments: terminator, zeros up to a byte, pad bytes. */
  function Tail(used: nat, capacity: nat): (s: Bits)
    requires used <= capacity && capacity % 8 == 0
    ensures |s| == capacity - used
  {
    var t := TerminatorBits(used, capacity);
    var a := (8 - (used + t) % 8) % 8;
    Zeros(t) + Zeros(a) + PadBits((capacity - used - t - a) / 8)
  }

  /** The data codewords' bits. */
  function FullStream(ps: seq<Payload>, v: Version, capacity: nat): (s: Bits)
    requires |PayloadsBits(ps, v)| <= capacity && capacity % 8 == 0
    ensures |s| == capacity
  {
    PayloadsBits(ps, v) + Tail(|PayloadsBits(ps, v)|, capacity)
  }

  // ----- Reading the stream

  function ModeOf(m: nat): Option<Mode> {
    if m == 1 then Some(Numeric)
    else if m == 2 then Some(Alphanumeric)
    else if m == 4 then Some(Byte)
    else if m == 8 then Some(Kanji)
    else if m == 7 then Some(Eci)
    else None
  }

  /** The number of data bits of a segment, from its header and what follows it. */
  function DataLength(mode: Mode, count: nat, rest: Bits): nat {
    if mode == Eci then EciLength(rest) else PayloadLength(mode, count)
  }

  /** Read segments up to the terminator, or up to the end when there is no room for one. */
  function Parse(s: Bits, v: Version): Option<seq<Payload>>
    decreases |s|
  {
    if |s| < 4 || ValueOf(s[..4]) == 0 then Some([])
    else
      match ModeOf(ValueOf(s[..4]))
      case None => None
      case Some(mode) =>
        var cc := NumCharCountBits(mode, v);
        if |s| < 4 + cc then None
        else
          var count, body := ValueOf(s[4..4 + cc]), s[4 + cc..];
          var len := DataLength(mode, count, body);
          if |body| < len || (mode == Eci && len == 0) then None
          else
            match Parse(body[len..], v)
            case None => None
            case Some(ps) => Some([Payload(mode, count, body[..len])] + ps)
  }

  /** The count agrees with the mode and with the length of the data. */
  predicate WellFormed(p: Payload) {
    if p.mode == Eci then p.numChars == 0 && p.bits != [] && EciLength(p.bits) == |p.bits|
    else |p.bits| == PayloadLength(p.mode, p.numChars)
  }

  predicate AllWellFormed(ps: seq<Payload>) {
    forall i | 0 <= i < |ps| :: WellFormed(ps[i])
  }

  lemma {:induction false} PayloadsBitsFront(ps: seq<Payload>, v: Version)
    requires ps != []
    ensures PayloadsBits(ps, v) == PayloadBits(ps[0], v) + PayloadsBits(ps[1..], v)
  {
    hide PayloadBits;
    if |ps| > 1 {
      var k := |ps| - 1;
      PayloadsBitsFront(ps[..k], v);
      assert ps[1..][..k - 1] == ps[..k][1..];
    } else {
      assert ps[..0] == [] && ps[1..] == [];
    }
  }

  lemma IndicatorRoundTrip(mode: Mode)
    ensures ValueOf(BitsOf(Indicator(mode), 4)) == Indicator(mode) && ModeOf(Indicator(mode)) == Some(mode)
  {
    assert Pow2(4) == 16;
    ValueOfBits(Indicator(mode), 4);
  }

  /** A well-formed segment is read back from the front of a stream. */
  lemma ParseOne(p: Payload, v: Version, rest: Bits)
    requires WellFormed(p) && CountFits(p, v)
    ensures match Parse(rest, v)
            case None => Parse(PayloadBits(p, v) + rest, v) == None
            case Some(ps) => Parse(PayloadBits(p, v) + rest, v) == Some([p] + ps)
  {
    hide BitsOf, ValueOf, NumCharCountBits, Indicator, ModeOf, EciLength, PayloadLength, Pow2;
    var cc := NumCharCountBits(p.mode, v);
    var head, count := BitsOf(Indicator(p.mode), 4), BitsOf(p.numChars, cc);
    var s := PayloadBits(p, v) + rest;
    IndicatorRoundTrip(p.mode);
    ValueOfBits(p.numChars, cc);
    assert s == head + (count + (p.bits + rest));
    assert s[..4] == head;
    assert s[4..4 + cc] == count;
    assert s[4 + cc..] == p.bits + rest;
    if p.mode == Eci { EciLengthLocal(p.bits, rest); }
    assert (p.bits + rest)[..|p.bits|] == p.bits && (p.bits + rest)[|p.bits|..] == rest;
  }

  lemma EciLengthLocal(bits: Bits, rest: Bits)
    requires bits != [] && EciLength(bits) == |bits|
    ensures EciLength(bits + rest) == |bits|
  {
  }

  /** A segment begins with its mode in four bits and its count of characters, and its data follows. */
  lemma SegmentHeader(p: Payload, v: Version)
    requires CountFits(p, v)
    ensures var s, cc := PayloadBits(p, v), NumCharCountBits(p.mode, v);
            && s[..4] == (match p.mode
                          case Numeric => [false, false, false, true]
                          case Alphanumeric => [false, false, true, false]
                          case Byte => [false, true, false, false]
                          case Kanji => [true, false, false, false]
                          case Eci => [false, true, true, true])
            && ValueOf(s[4..4 + cc]) == p.numChars && s[4 + cc..] == p.bits
  {
    hide ValueOf, NumCharCountBits, Pow2, BitsOf;
    var s, cc := PayloadBits(p, v), NumCharCountBits(p.mode, v);
    assert s[..4] == BitsOf(Indicator(p.mode), 4);
    assert s[4..4 + cc] == BitsOf(p.numChars, cc);
    ValueOfBits(p.numChars, cc);
    IndicatorBits(p.mode);
  }

  lemma FourBits(v: nat, a: bool, b: bool, c: bool, d: bool)
    requires v == 8 * Weight(a) + 4 * Weight(b) + 2 * Weight(c) + Weight(d)
    ensures BitsOf(v, 4) == [a, b, c, d]
  {
    hide BitsOf;
    var s := [a, b, c, d];
    assert s[..3] == [a, b, c] && [a, b, c][..2] == [a, b] && [a, b][..1] == [a] && [a][..0] == [];
    assert ValueOf([a]) == Weight(a);
    assert ValueOf([a, b]) == 2 * ValueOf([a]) + Weight(b);
    assert ValueOf([a, b, c]) == 2 * ValueOf([a, b]) + Weight(c);
    BitsOfValue(s);
  }

  lemma IndicatorBits(mode: Mode)
    ensures BitsOf(Indicator(mode), 4)
         == match mode
            case Numeric => [false, false, false, true]
            case Alphanumeric => [false, false, true, false]
            case Byte => [false, true, false, false]
            case Kanji => [true, false, false, false]
            case Eci => [false, true, true, true]
  {
    hide BitsOf;
    FourBits(1, false, false, false, true);
    FourBits(2, false, false, true, false);
    FourBits(4, false, true, false, false);
    FourBits(8, true, false, false, false);
    FourBits(7, false, true, true, true);
  }

  predicate Terminates(tail: Bits) {
    |tail| < 4 || ValueOf(tail[..4]) == 0
  }

  /** Parsing the stream gives the segments back. */
  lemma {:induction false} ParseAll(ps: seq<Payload>, v: Version, tail: Bits)
    requires AllWellFormed(ps) && (forall i | 0 <= i < |ps| :: CountFits(ps[i], v)) && Terminates(tail)
    ensures Parse(PayloadsBits(ps, v) + tail, v) == Some(ps)
    decreases |ps|
  {
    hide Parse, Terminates, PayloadsBits, PayloadBits, WellFormed, CountFits;
    if ps == [] {
      ParseNothing(v, tail);
      EmptyStream(v);
      assert [] + tail == tail;
    } else {
      PayloadsBitsFront(ps, v);
      ParseAll(ps[1..], v, tail);
      ParseOne(ps[0], v, PayloadsBits(ps[1..], v) + tail);
      assert PayloadsBits(ps, v) + tail == PayloadBits(ps[0], v) + (PayloadsBits(ps[1..], v) + tail);
      assert ps == [ps[0]] + ps[1..];
    }
  }

  lemma ParseNothing(v: Version, tail: Bits)
    requires Terminates(tail)
    ensures Parse(tail, v) == Some([])
  {
  }

  lemma TailTerminates(used: nat, capacity: nat)
    requires used <= capacity && capacity % 8 == 0
    ensures Terminates(Tail(used, capacity))
  {
    hide PadBits;
    if capacity - used >= 4 {
      assert Tail(used, capacity)[..4] == BitsOf(0, 4) by {
        forall k: nat | k < 4 ensures !Bit(0, k) { ZeroBit(k); }
      }
      assert Pow2(4) == 16;
      ValueOfBits(0, 4);
    }
  }

  /** The complete stream is read back up to the terminator. */
  lemma StreamRoundTrip(ps: seq<Payload>, v: Version, capacity: nat)
    requires AllWellFormed(ps) && Encodable(ps, v) && |PayloadsBits(ps, v)| <= capacity && capacity % 8 == 0
    ensures Parse(FullStream(ps, v, capacity), v) == Some(ps)
  {
    hide Parse, PayloadsBits, Tail;
    TailTerminates(|PayloadsBits(ps, v)|, capacity);
    ParseAll(ps, v, Tail(|PayloadsBits(ps, v)|, capacity));
  }
}
