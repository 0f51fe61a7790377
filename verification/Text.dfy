/** Encoding text and binary data as one segment. */
module Text {
  import opened Arithmetic
  import opened Bitwise
  import opened BitStream
  import opened Segments
  import opened DataStream
  import opened Tables
  import opened Versions
  import opened Symbol
  import opened Candidates
  import opened Encoder
  import opened Decoder

  // ----- The segment of a text

  /** Text as the source has it: non-zero bytes. */
  predicate IsText(text: string) {
    forall i | 0 <= i < |text| :: 0 < text[i] as int < 256
  }

  function TextBytes(text: string): (b: seq<byte>)
    requires IsText(text)
    ensures |b| == |text| && forall i | 0 <= i < |b| :: b[i] == text[i] as int
  {
    seq(|text|, i requires 0 <= i < |text| => text[i] as int)
  }

  function BytesText(b: seq<byte>): string {
    seq(|b|, i requires 0 <= i < |b| => b[i] as char)
  }

  /** The first of numeric, alphanumeric and byte mode that can represent the text. */
  function TextPayload(text: string): Payload
    requires IsText(text)
  {
    if AllDigits(text) then Payload(Numeric, |text|, PackedBits(DIGITS, DigitCodes(text)))
    else if AllCharacters(text) then Payload(Alphanumeric, |text|, PackedBits(CHARACTERS, CharacterCodes(text)))
    else BinaryPayload(TextBytes(text))
  }

  function BinaryPayload(data: seq<byte>): Payload {
    Payload(Byte, |data|, Stream(data, 8 * |data|))
  }

  /** The empty text needs no segment at all. */
  function TextPayloads(text: string): seq<Payload>
    requires IsText(text)
  {
    if text == "" then [] else [TextPayload(text)]
  }

  // ----- Reading the text back

  function PayloadText(p: Payload): Option<string> {
    match p.mode
    case Numeric =>
      var codes := UnpackedCodes(DIGITS, p.bits, p.numChars);
      if AllBelow(10, codes) then Some(DigitText(codes)) else None
    case Alphanumeric =>
      var codes := UnpackedCodes(CHARACTERS, p.bits, p.numChars);
      if AllBelow(45, codes) then Some(CharacterText(codes)) else None
    case Byte => if |p.bits| % 8 == 0 then Some(BytesText(BytesOf(p.bits))) else None
    case _ => None
  }

  /** The text of a symbol: the texts of its segments one after the other. */
  function PayloadsText(ps: seq<Payload>): Option<string> {
    if ps == [] then Some("")
    else if PayloadText(ps[0]).Some? && PayloadsText(ps[1..]).Some?
    then Some(PayloadText(ps[0]).value + PayloadsText(ps[1..]).value)
    else None
  }

  function ReadText(g: Grid): Option<string> {
    match Decode(g)
    case None => None
    case Some(ps) => PayloadsText(ps)
  }

  lemma BytesTextBack(text: string)
    requires IsText(text)
    ensures BytesText(TextBytes(text)) == text
  {
  }

  lemma PayloadTextBack(text: string)
    requires IsText(text)
    ensures PayloadText(TextPayload(text)) == Some(text) && WellFormed(TextPayload(text))
  {
    hide PackedBits, UnpackedCodes, DigitCodes, CharacterCodes, DigitText, CharacterText, CharIndex, Charset, AllDigits,
         AllCharacters, BytesOf, TextBytes, BytesText;
    if AllDigits(text) {
      var codes := DigitCodes(text);
      UnpackPacked(DIGITS, codes, []);
      assert PackedBits(DIGITS, codes) + [] == PackedBits(DIGITS, codes);
      PackedLength(DIGITS, codes);
      DigitTextCodes(text);
    } else if AllCharacters(text) {
      var codes := CharacterCodes(text);
      UnpackPacked(CHARACTERS, codes, []);
      assert PackedBits(CHARACTERS, codes) + [] == PackedBits(CHARACTERS, codes);
      PackedLength(CHARACTERS, codes);
      CharacterTextCodes(text);
    } else {
      BytesOfStream(TextBytes(text));
      BytesTextBack(text);
    }
  }

  /** The text can be read off the symbol that encodes it. */
  lemma TextRoundTrip(text: string, ecl: Ecc, minVersion: Version, maxVersion: Version, mask: int,
                      boostEcl: bool, g: Grid)
    requires IsText(text) && IsEncoding(TextPayloads(text), ecl, minVersion, maxVersion, mask, boostEcl, g)
    ensures ReadText(g) == Some(text)
  {
    hide IsEncoding, Decode, WellFormed, PayloadText, TextPayload;
    var ps := TextPayloads(text);
    PayloadTextBack(text);
    EncodingRoundTrip(ps, ecl, minVersion, maxVersion, mask, boostEcl, g);
    if text != "" {
      assert ps[1..] == [] && PayloadsText([]) == Some("");
      assert text + "" == text;
    }
  }

  // ----- Too long for every version

  /** A segment too long for the buffer of a version, or for a bit length, fits no version up to it. */
  lemma TooLong(p: Payload, minVersion: Version, maxVersion: Version, ecl: Ecc)
    requires |p.bits| > 8 * BufferLength(Side(maxVersion)) || |p.bits| > INT16_MAX
    ensures !SomeFits([p], minVersion, maxVersion, ecl)
  {
    hide BufferLength, NumDataCodewords, RawCodewords, PayloadBits, CountFits;
    forall v: Version | minVersion <= v <= maxVersion
      ensures !Fits([p], v, ecl)
    {
      PayloadsBitsNext([p], 0, v);
      assert [p][..0 + 1] == [p] && [p][..0] == [] && [p][0] == p;
      assert |PayloadsBits([p], v)| >= |p.bits|;
      BufferRoom(v, maxVersion);
      BlockSizes(v, ecl);
    }
  }

  /** The mode's length is at least the number of characters. */
  lemma LengthAtLeast(mode: Mode, count: nat)
    requires mode != Eci
    ensures PayloadLength(mode, count) >= count
  {
  }

  lemma LengthMissing(text: string)
    requires IsText(text)
    ensures |TextPayload(text).bits| == PayloadLength(TextPayload(text).mode, |text|)
    ensures SegmentBitLength(TextPayload(text).mode, |text|) == -1 ==> |TextPayload(text).bits| > INT16_MAX
  {
    hide TextPayload, PayloadText, PayloadLength;
    PayloadTextBack(text);
    TextMode(text);
    LengthAtLeast(TextPayload(text).mode, |text|);
  }

  lemma TextMode(text: string)
    requires IsText(text)
    ensures TextPayload(text).mode
         == if AllDigits(text) then Numeric else if AllCharacters(text) then Alphanumeric else Byte
    ensures TextPayload(text).numChars == |text|
  {
    hide PackedBits, DigitCodes, CharacterCodes, TextBytes;
  }

  // ----- Making the segment in the temporary buffer

  /** Make the segment of a text, unless it cannot fit the buffer. */
  method MakeText(text: string, bufLen: nat, tempBuffer: array<byte>) returns (made: bool, seg: Segment)
    requires IsText(text) && bufLen <= tempBuffer.Length && bufLen < SIZE_MAX
    modifies tempBuffer
    ensures made ==> Readable(seg) && seg.data == tempBuffer && PayloadOf(seg) == TextPayload(text)
    ensures !made ==> |TextPayload(text).bits| > 8 * bufLen || |TextPayload(text).bits| > INT16_MAX
  {
    hide PackedBits, DigitCodes, CharacterCodes, CharIndex, Charset, AllDigits, AllCharacters, TextBytes, PayloadLength;
    var textLen := |text|;
    seg := Segment(Byte, 0, null, 0, 0);
    LengthMissing(text);
    var numeric := IsNumeric(text);
    if numeric {
      var size := CalcSegmentBufferSize(Numeric, textLen);
      if size > bufLen { return false, seg; }
      seg := MakeNumeric(text, tempBuffer);
      return true, seg;
    }
    var alphanumeric := IsAlphanumeric(text);
    if alphanumeric {
      var size := CalcSegmentBufferSize(Alphanumeric, textLen);
      if size > bufLen { return false, seg; }
      seg := MakeAlphanumeric(text, tempBuffer);
      return true, seg;
    }
    made, seg := MakeByteText(text, bufLen, tempBuffer);
  }

  method MakeByteText(text: string, bufLen: nat, tempBuffer: array<byte>) returns (made: bool, seg: Segment)
    requires IsText(text) && bufLen <= tempBuffer.Length
    modifies tempBuffer
    ensures made ==> Readable(seg) && seg.data == tempBuffer && PayloadOf(seg) == BinaryPayload(TextBytes(text))
    ensures !made ==> 8 * |text| > 8 * bufLen || 8 * |text| > INT16_MAX
  {
    var textLen := |text|;
    seg := Segment(Byte, 0, null, 0, 0);
    if textLen > bufLen { return false, seg; }
    for i := 0 to textLen
      invariant forall k | 0 <= k < i :: tempBuffer[k] == text[k] as int
    {
      tempBuffer[i] := text[i] as int;
    }
    var bitLength := CalcSegmentBitLength(Byte, textLen);
    if bitLength == -1 { return false, seg; }
    seg := Segment(Byte, textLen, tempBuffer, 0, bitLength);
    SameStream(tempBuffer[..], TextBytes(text), 8 * textLen);
    assert tempBuffer[0..] == tempBuffer[..];
    return true, seg;
  }

  // ----- The high-level encoders

  lemma OnePayload(seg: Segment)
    requires Readable(seg)
    ensures Payloads([seg]) == [PayloadOf(seg)]
  {
    hide PayloadOf;
  }

  /** No symbol needs more than 3918 bytes. */
  lemma BufferSmall(v: Version)
    ensures BufferLength(Side(v)) <= 3918
  {
    SquareMonotone(Side(v), 177);
  }

  /**
   Encode a text. There is a symbol exactly if some version of the range holds the text's segment;
   the early exits for texts that do not fit the buffer reject only texts that no version holds.
   */
  method EncodeText(text: string, tempBuffer: array<byte>, qrcode: array<byte>, ecl: Ecc,
                    minVersion: Version, maxVersion: Version, mask: int, boostEcl: bool)
    returns (ok: bool)
    requires IsText(text) && minVersion <= maxVersion && -1 <= mask <= 7 && tempBuffer != qrcode
    requires BufferLength(Side(maxVersion)) <= tempBuffer.Length && BufferLength(Side(maxVersion)) <= qrcode.Length
    modifies tempBuffer, qrcode
    ensures ok == SomeFits(TextPayloads(text), minVersion, maxVersion, ecl)
    ensures ok ==> Valid(qrcode[..])
                   && IsEncoding(TextPayloads(text), ecl, minVersion, maxVersion, mask, boostEcl, View(qrcode[..]))
    ensures !ok ==> qrcode.Length > 0 && qrcode[0] == 0
  {
    hide View, BufferLength, SomeFits, IsEncoding, Valid, TextPayload, PayloadOf;
    BufferPositive(Side(maxVersion));
    if |text| == 0 {
      assert Payloads([]) == [];
      ok := EncodeSegmentsAdvanced([], ecl, minVersion, maxVersion, mask, boostEcl, tempBuffer, qrcode);
      return;
    }
    var bufLen := BufferLength(Side(maxVersion));
    BufferSmall(maxVersion);
    var made, seg := MakeText(text, bufLen, tempBuffer);
    if !made {
      TooLong(TextPayload(text), minVersion, maxVersion, ecl);
      qrcode[0] := 0;
      return false;
    }
    OnePayload(seg);
    ok := EncodeSegmentsAdvanced([seg], ecl, minVersion, maxVersion, mask, boostEcl, tempBuffer, qrcode);
  }

  /** Encode binary data that lies in the temporary buffer. */
  method EncodeBinary(dataAndTemp: array<byte>, dataLen: nat, qrcode: array<byte>, ecl: Ecc,
                      minVersion: Version, maxVersion: Version, mask: int, boostEcl: bool)
    returns (ok: bool)
    requires dataLen <= dataAndTemp.Length && minVersion <= maxVersion && -1 <= mask <= 7 && dataAndTemp != qrcode
    requires BufferLength(Side(maxVersion)) <= dataAndTemp.Length && BufferLength(Side(maxVersion)) <= qrcode.Length
    modifies dataAndTemp, qrcode
    ensures ok == SomeFits([BinaryPayload(old(dataAndTemp[..dataLen]))], minVersion, maxVersion, ecl)
    ensures ok ==> Valid(qrcode[..])
                   && IsEncoding([BinaryPayload(old(dataAndTemp[..dataLen]))], ecl, minVersion, maxVersion, mask,
                                 boostEcl, View(qrcode[..]))
    ensures !ok ==> qrcode.Length > 0 && qrcode[0] == 0
  {
    hide View, BufferLength, SomeFits, IsEncoding, Valid;
    BufferPositive(Side(maxVersion));
    ghost var p := BinaryPayload(dataAndTemp[..dataLen]);
    var bitLength := CalcSegmentBitLength(Byte, dataLen);
    if bitLength == -1 {
      TooLong(p, minVersion, maxVersion, ecl);
      qrcode[0] := 0;
      return false;
    }
    var seg := Segment(Byte, dataLen, dataAndTemp, 0, bitLength);
    SameStream(dataAndTemp[..], dataAndTemp[..dataLen], 8 * dataLen);
    assert dataAndTemp[0..] == dataAndTemp[..];
    OnePayload(seg);
    ok := EncodeSegmentsAdvanced([seg], ecl, minVersion, maxVersion, mask, boostEcl, dataAndTemp, qrcode);
  }
}
