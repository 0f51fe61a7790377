/** The documented limits: the longest texts that any symbol can hold. */
module Limits {
  import opened Arithmetic
  import opened Bitwise
  import opened Segments
  import opened DataStream
  import opened Tables
  import opened Versions
  import opened Encoder
  import opened Text

  lemma LargestSymbols()
    ensures NumDataCodewords(35, 0) <= 2956 && NumDataCodewords(36, 0) <= 2956 && NumDataCodewords(37, 0) <= 2956
    ensures NumDataCodewords(38, 0) <= 2956 && NumDataCodewords(39, 0) <= 2956 && NumDataCodewords(40, 0) == 2956
  {
  }

  /** No version has more data codewords than the largest at level Low, and those up to 34 have fewer. */
  lemma CapacityAtMost(v: Version)
    ensures NumDataCodewords(v, 0) <= 2956
    ensures v <= 34 ==> NumDataCodewords(v, 0) <= 2926
    ensures NumDataCodewords(40, 0) == 2956
  {
    hide *;
    LargestSymbols();
    if v <= 34 { SmallerCapacity(v); }
  }

  lemma SmallerCapacity(v: Version)
    requires v <= 34
    ensures NumDataCodewords(v, 0) <= 2926
  {
    hide NumDataCodewords, NumRawDataModules;
    BlockSizes(v, 0);
    RawBelowSquare(v);
    SquareMonotone(Side(v), 153);
  }

  function Limit(mode: Mode): nat {
    match mode
    case Numeric => 7089
    case Alphanumeric => 4296
    case _ => 2953
  }

  lemma LengthLimit(mode: Mode, count: nat, cc: nat)
    requires mode.Numeric? || mode.Alphanumeric? || mode.Byte?
    ensures count > Limit(mode) ==> PayloadLength(mode, count) > 8 * 2926
    ensures cc == (if mode.Numeric? then 14 else if mode.Alphanumeric? then 13 else 16) ==>
              (4 + cc + PayloadLength(mode, count) <= 8 * 2956 <==> count <= Limit(mode))
  {
  }

  lemma OneBits(p: Payload, v: Version)
    ensures |PayloadsBits([p], v)| == 4 + NumCharCountBits(p.mode, v) + |p.bits|
  {
    hide PayloadBits;
    PayloadsBitsNext([p], 0, v);
    assert [p][..0 + 1] == [p] && [p][0] == p;
  }

  lemma CountBits(mode: Mode, v: Version)
    requires mode.Numeric? || mode.Alphanumeric? || mode.Byte?
    ensures v >= 27 ==> NumCharCountBits(mode, v) == if mode.Numeric? then 14 else if mode.Alphanumeric? then 13 else 16
    ensures Limit(mode) < Pow2(NumCharCountBits(mode, 40))
  {
    assert Pow2(14) == 16384 && Pow2(13) == 8192 && Pow2(16) == 65536;
  }

  lemma FitsWithin(p: Payload, count: nat, v: Version)
    requires p.mode.Numeric? || p.mode.Alphanumeric? || p.mode.Byte?
    requires p.numChars == count && |p.bits| == PayloadLength(p.mode, count)
    ensures Fits([p], v, 0) ==> count <= Limit(p.mode)
    ensures count <= Limit(p.mode) ==> Fits([p], 40, 0)
  {
    hide PayloadLength, Limit, NumCharCountBits, PayloadsBits, NumDataCodewords, Pow2;
    OneBits(p, v);
    OneBits(p, 40);
    CapacityAtMost(v);
    CountBits(p.mode, v);
    CountBits(p.mode, 40);
    LengthLimit(p.mode, count, NumCharCountBits(p.mode, v));
    LengthLimit(p.mode, count, NumCharCountBits(p.mode, 40));
  }

  /**
   With all versions allowed and level Low, exactly the digit strings up to 7089 digits, the
   alphanumeric strings up to 4296 characters and the other texts up to 2953 bytes can be encoded.
   */
  lemma DocumentedLimits(text: string)
    requires IsText(text)
    ensures SomeFits(TextPayloads(text), 1, 40, 0) <==>
            |text| <= (if AllDigits(text) then 7089 else if AllCharacters(text) then 4296 else 2953)
  {
    hide TextPayload, PayloadLength, AllDigits, AllCharacters;
    if text == "" {
      EmptyFits();
      EmptyDigits();
    } else {
      hide Fits;
      var p := TextPayload(text);
      TextMode(text);
      LengthMissing(text);
      assert TextPayloads(text) == [p];
      FitsWithin(p, |text|, 40);
      forall v: Version
        ensures Fits([p], v, 0) ==> |text| <= Limit(p.mode)
      {
        FitsWithin(p, |text|, v);
      }
    }
  }

  lemma EmptyDigits()
    ensures AllDigits("")
  {
  }

  lemma EmptyFits()
    ensures Fits([], 40, 0) && SomeFits([], 1, 40, 0)
  {
    hide NumDataCodewords;
    CapacityAtMost(40);
  }
}
