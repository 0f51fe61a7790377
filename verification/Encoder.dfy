/** Encoding segments: stream, codewords, placement, function modules and mask, all in the two buffers. */
module Encoder {
  import opened Arithmetic
  import opened Bitwise
  import opened BitStream
  import opened Segments
  import opened DataStream
  import opened StreamBuilder
  import opened Tables
  import opened Versions
  import opened Interleaving
  import opened Symbol
  import opened FunctionModules
  import opened Zigzag
  import opened Drawing
  import opened Masking
  import opened Scoring
  import opened Candidates

  const MASK_AUTO := -1

  // ----- The buffers are large enough

  /** A symbol of a version has room for its codewords, and for those of smaller versions. */
  lemma BufferRoom(v: Version, maxVersion: Version)
    requires v <= maxVersion
    ensures 0 <= RawCodewords(v) <= BufferLength(Side(v)) <= BufferLength(Side(maxVersion))
  {
    hide NumRawDataModules, RawCodewords;
    DataCellsFine(v);
    RawBelowSquare(v);
    SquareMonotone(Side(v), Side(maxVersion));
  }

  lemma RawBelowSquare(v: Version)
    ensures NumRawDataModules(v) <= Side(v) * Side(v)
  {
    assert Side(v) * Side(v) == 16 * v * v + 136 * v + 289;
    assert (16 * v + 128) * v == 16 * v * v + 128 * v;
    AlignmentPositive(v / 7 + 2);
  }

  lemma AlignmentPositive(k: nat)
    requires k >= 2
    ensures (25 * k - 10) * k - 55 > 0
  {
    assert (25 * k - 10) * k >= (25 * 2 - 10) * k;
  }

  // ----- Data codewords

  lemma HoldsBytes(buf: seq<byte>, s: Bits, n: nat)
    requires |s| == 8 * n && Holds(buf, s, 8 * n)
    ensures n <= |buf| && buf[..n] == BytesOf(s)
  {
    hide Bit;
    assert s + Zeros(0) == s;
    StreamPrefix(buf, n);
    BytesOfStream(buf[..n]);
  }

  lemma StreamPrefix(buf: seq<byte>, n: nat)
    requires n <= |buf|
    ensures Stream(buf, 8 * n) == Stream(buf[..n], 8 * n)
  {
    SameStream(buf, buf[..n], 8 * n);
  }

  /** Write the data codewords of the segments. */
  method EncodeData(segs: seq<Segment>, version: Version, ecl: Ecc, qrcode: array<byte>, ghost ps: seq<Payload>)
    requires AllReadable(segs) && (forall i | 0 <= i < |segs| :: segs[i].data != qrcode) && ps == Payloads(segs)
    requires Fits(ps, version, ecl) && BufferLength(Side(version)) <= qrcode.Length
    modifies qrcode
    ensures 0 <= NumDataCodewords(version, ecl) <= qrcode.Length
    ensures qrcode[..NumDataCodewords(version, ecl)] == DataCodewords(ps, version, ecl)
  {
    hide Holds, PayloadsBits, Tail, NumDataCodewords, RawCodewords, BytesOf, CountFits;
    BlockSizes(version, ecl);
    BufferRoom(version, version);
    var n := NumDataCodewords(version, ecl);
    forall k | 0 <= k < BufferLength(Side(version)) { qrcode[k] := 0; }
    ClearedHolds(qrcode[..], 8 * n);
    assert ps == Payloads(segs);
    var bitLen := AppendSegments(segs, version, qrcode, ps, 8 * n);
    AppendTail(qrcode, bitLen, n * 8, PayloadsBits(ps, version));
    HoldsBytes(qrcode[..], FullStream(ps, version, n * 8), n);
  }

  // ----- Placement

  /** Draw the codewords in the temporary buffer and all function modules but the format information. */
  method DrawSymbol(tempBuffer: array<byte>, version: Version, qrcode: array<byte>, ghost raw: seq<byte>)
    requires tempBuffer != qrcode && BufferLength(Side(version)) <= qrcode.Length
    requires 0 <= RawCodewords(version) <= tempBuffer.Length && raw == tempBuffer[..RawCodewords(version)]
    modifies qrcode
    ensures Valid(qrcode[..]) && qrcode[0] == Side(version)
    ensures View(qrcode[..]) == Unmasked(version, raw)
  {
    hide View, FunctionGrid, LightCells, Path, Place, DrawnGrid, BufferLength, NumRawDataModules;
    DataCellsFine(version);
    InitializeFunctionModules(version, qrcode);
    StreamPrefix(tempBuffer[..], RawCodewords(version));
    DrawCodewords(tempBuffer, NumRawDataModules(version) / 8, qrcode);
    assert View(qrcode[..]) == Placed(version, raw);
    DrawWhiteFunctionModules(qrcode, version);
  }

  // ----- The mask

  /** Apply a mask and draw the format information: whatever the latter was, this is the candidate. */
  method DrawCandidate(tempBuffer: array<byte>, version: Version, ecl: Ecc, mask: Mask, qrcode: array<byte>,
                       ghost base: Grid)
    requires tempBuffer != qrcode && Valid(tempBuffer[..]) && View(tempBuffer[..]) == FunctionGrid(version)
    requires Valid(qrcode[..]) && tempBuffer[0] == qrcode[0] == Side(version)
    requires SameOffFormat(version, View(qrcode[..]), base)
    modifies qrcode
    ensures Valid(qrcode[..]) && qrcode[0] == Side(version)
    ensures View(qrcode[..]) == Candidate(version, base, ecl, mask)
  {
    hide View, FunctionGrid, MaskGrid, FormatGrid, FormatBits, SameOffFormat, BufferLength;
    ghost var g := View(qrcode[..]);
    SameSquare(version, g, base);
    ApplyMask(tempBuffer, qrcode, mask);
    DrawFormatBits(ecl, mask, qrcode);
    FormatOverwrites(version, g, base, ecl, mask);
  }

  lemma SameSquare(v: Version, g: Grid, h: Grid)
    requires SameOffFormat(v, g, h)
    ensures Square(g, Side(v)) && Square(h, Side(v))
  {
  }

  /** Score one mask and undo it. */
  method TryMask(tempBuffer: array<byte>, version: Version, ecl: Ecc, mask: Mask, qrcode: array<byte>, ghost base: Grid)
    returns (penalty: int)
    requires tempBuffer != qrcode && Valid(tempBuffer[..]) && View(tempBuffer[..]) == FunctionGrid(version)
    requires Valid(qrcode[..]) && tempBuffer[0] == qrcode[0] == Side(version)
    requires SameOffFormat(version, View(qrcode[..]), base) && Square(base, Side(version))
    modifies qrcode
    ensures Valid(qrcode[..]) && qrcode[0] == Side(version)
    ensures penalty == CandidateScore(version, base, ecl, mask)
    ensures SameOffFormat(version, View(qrcode[..]), base)
  {
    hide View, FunctionGrid, MaskGrid, Score, Candidate, SameOffFormat, BufferLength;
    DrawCandidate(tempBuffer, version, ecl, mask, qrcode, base);
    penalty := GetPenaltyScore(qrcode);
    ApplyMask(tempBuffer, qrcode, mask);
    MaskUndone(version, base, ecl, mask);
  }

  /** Among the first i masks, the best one and its score. */
  ghost predicate BestBelow(v: Version, base: Grid, ecl: Ecc, i: int, m: int, minPenalty: int)
    requires Square(base, Side(v))
  {
    && (i <= 0 ==> minPenalty == LONG_MAX)
    && (i > 0 ==> 0 <= m < 8 && m < i && minPenalty == CandidateScore(v, base, ecl, m))
    && forall k: Mask | k < i :: minPenalty <= CandidateScore(v, base, ecl, k)
                                 && (k < m ==> minPenalty < CandidateScore(v, base, ecl, k))
  }

  lemma BestBelowNext(v: Version, base: Grid, ecl: Ecc, i: Mask, m: int, minPenalty: int)
    requires Square(base, Side(v)) && BestBelow(v, base, ecl, i, m, minPenalty)
    ensures var p := CandidateScore(v, base, ecl, i);
            if p < minPenalty then BestBelow(v, base, ecl, i + 1, i, p)
            else BestBelow(v, base, ecl, i + 1, m, minPenalty)
  {
    hide CandidateScore;
    CandidateScoreBounded(v, base, ecl, i);
  }

  lemma BestBelowAll(v: Version, base: Grid, ecl: Ecc, m: int, minPenalty: int)
    requires Square(base, Side(v)) && BestBelow(v, base, ecl, 8, m, minPenalty)
    ensures 0 <= m < 8 && BestMask(v, base, ecl, m)
  {
    hide CandidateScore;
  }

  /** Try all masks in place; the lowest-numbered one of minimal penalty is the result. */
  method ChooseMask(tempBuffer: array<byte>, version: Version, ecl: Ecc, qrcode: array<byte>, ghost base: Grid)
    returns (mask: int)
    requires tempBuffer != qrcode && Valid(tempBuffer[..]) && View(tempBuffer[..]) == FunctionGrid(version)
    requires Valid(qrcode[..]) && tempBuffer[0] == qrcode[0] == Side(version)
    requires SameOffFormat(version, View(qrcode[..]), base) && Square(base, Side(version))
    modifies qrcode
    ensures Valid(qrcode[..]) && qrcode[0] == Side(version)
    ensures 0 <= mask < 8 && BestMask(version, base, ecl, mask)
    ensures SameOffFormat(version, View(qrcode[..]), base)
  {
    hide View, FunctionGrid, SameOffFormat, BestMask, BestBelow, CandidateScore, BufferLength, Square;
    mask := MASK_AUTO;
    var minPenalty := LONG_MAX;
    BestBelowNone(version, base, ecl);
    ghost var f := tempBuffer[..];
    for i := 0 to 8
      invariant tempBuffer[..] == f
      invariant Valid(qrcode[..]) && qrcode[0] == Side(version)
      invariant SameOffFormat(version, View(qrcode[..]), base)
      invariant BestBelow(version, base, ecl, i, mask, minPenalty)
    {
      BestBelowNext(version, base, ecl, i, mask, minPenalty);
      var penalty := TryMask(tempBuffer, version, ecl, i, qrcode, base);
      if penalty < minPenalty {
        mask := i;
        minPenalty := penalty;
      }
    }
    BestBelowAll(version, base, ecl, mask, minPenalty);
  }

  lemma BestBelowNone(v: Version, base: Grid, ecl: Ecc)
    requires Square(base, Side(v))
    ensures BestBelow(v, base, ecl, 0, MASK_AUTO, LONG_MAX)
  {
    hide CandidateScore;
  }

  /** Choose the mask if asked to, apply it and draw the format information. */
  method FinishSymbol(tempBuffer: array<byte>, version: Version, ecl: Ecc, mask: int, qrcode: array<byte>)
    returns (ghost m: Mask)
    requires tempBuffer != qrcode && Valid(qrcode[..]) && qrcode[0] == Side(version) && -1 <= mask <= 7
    requires BufferLength(Side(version)) <= tempBuffer.Length
    modifies tempBuffer, qrcode
    ensures Valid(qrcode[..]) && Square(old(View(qrcode[..])), Side(version))
    ensures MaskChosen(version, old(View(qrcode[..])), ecl, mask, m)
    ensures View(qrcode[..]) == Candidate(version, old(View(qrcode[..])), ecl, m)
  {
    hide View, FunctionGrid, SameOffFormat, BestMask, CandidateScore, BufferLength, Candidate;
    ghost var base := View(qrcode[..]);
    InitializeFunctionModules(version, tempBuffer);
    SameReflexive(version, base);
    var msk := mask;
    if mask == MASK_AUTO { msk := ChooseMask(tempBuffer, version, ecl, qrcode, base); }
    m := msk;
    DrawCandidate(tempBuffer, version, ecl, msk, qrcode, base);
  }

  lemma SameReflexive(v: Version, g: Grid)
    requires Square(g, Side(v))
    ensures SameOffFormat(v, g, g)
  {
  }

  // ----- The whole encoder

  /** Encode at a version and level that hold the segments. */
  method EncodeAt(segs: seq<Segment>, version: Version, ecl: Ecc, mask: int, tempBuffer: array<byte>,
                  qrcode: array<byte>, ghost ps: seq<Payload>)
    returns (ghost m: Mask)
    requires AllReadable(segs) && (forall i | 0 <= i < |segs| :: segs[i].data != qrcode) && ps == Payloads(segs)
    requires Fits(ps, version, ecl) && tempBuffer != qrcode && -1 <= mask <= 7
    requires BufferLength(Side(version)) <= qrcode.Length && BufferLength(Side(version)) <= tempBuffer.Length
    modifies tempBuffer, qrcode
    ensures Valid(qrcode[..]) && MaskChosen(version, Unmasked(version, Codewords(ps, version, ecl)), ecl, mask, m)
    ensures View(qrcode[..]) == SymbolOf(ps, version, ecl, m)
  {
    hide View, FunctionGrid, MaskChosen, BufferLength, Candidate, Fits, DataCodewords, Unmasked, RawCodewords,
         NumDataCodewords, Interleaved, Payloads;
    EncodeData(segs, version, ecl, qrcode, ps);
    ghost var data := DataCodewords(ps, version, ecl);
    BufferRoom(version, version);
    assert qrcode[..][..NumDataCodewords(version, ecl)] == data;
    AddEccAndInterleave(qrcode, version, ecl, tempBuffer);
    DrawSymbol(tempBuffer, version, qrcode, Codewords(ps, version, ecl));
    m := FinishSymbol(tempBuffer, version, ecl, mask, qrcode);
  }

  /**
   Encode segments. The data of a segment may lie in the temporary buffer, but not in the array
   of the symbol. There is a symbol exactly if some version of the range holds the segments at the
   requested level, and it is the one that the request determines from the segments' contents on entry.
   */
  method EncodeSegmentsAdvanced(segs: seq<Segment>, ecl: Ecc, minVersion: Version, maxVersion: Version, mask: int,
                                boostEcl: bool, tempBuffer: array<byte>, qrcode: array<byte>)
    returns (ok: bool)
    requires AllReadable(segs) && (forall i | 0 <= i < |segs| :: segs[i].data != qrcode)
    requires minVersion <= maxVersion && -1 <= mask <= 7 && tempBuffer != qrcode
    requires BufferLength(Side(maxVersion)) <= tempBuffer.Length && BufferLength(Side(maxVersion)) <= qrcode.Length
    modifies tempBuffer, qrcode
    ensures ok == old(SomeFits(Payloads(segs), minVersion, maxVersion, ecl))
    ensures ok ==> Valid(qrcode[..])
                   && IsEncoding(old(Payloads(segs)), ecl, minVersion, maxVersion, mask, boostEcl, View(qrcode[..]))
    ensures !ok ==> qrcode.Length > 0 && qrcode[0] == 0
  {
    hide View, BufferLength, SymbolOf, SomeFits, Fits, MaskChosen, SmallestVersion, LevelChosen, Unmasked, Codewords;
    ghost var ps := Payloads(segs);
    BufferPositive(Side(maxVersion));
    var version, dataUsedBits;
    ok, version, dataUsedBits := ChooseVersion(segs, ecl, minVersion, maxVersion, ps);
    if !ok {
      qrcode[0] := 0;
      return;
    }
    SmallestFits(ps, minVersion, maxVersion, ecl, version);
    BufferRoom(version, maxVersion);
    var level := BoostLevel(ecl, version, boostEcl, dataUsedBits, ps);
    LevelFits(ps, version, ecl, boostEcl, level);
    assert Payloads(segs) == ps;
    ghost var m := EncodeAt(segs, version, level, mask, tempBuffer, qrcode, ps);
    assert Meets(ps, ecl, minVersion, maxVersion, mask, boostEcl, version, level, m);
  }

  lemma BufferPositive(n: nat)
    ensures BufferLength(n) > 0
  {
  }

  lemma SmallestFits(ps: seq<Payload>, minVersion: Version, maxVersion: Version, ecl: Ecc, v: Version)
    requires SmallestVersion(ps, minVersion, maxVersion, ecl, v)
    ensures minVersion <= v <= maxVersion && Fits(ps, v, ecl)
  {
    hide Fits;
  }

  lemma LevelFits(ps: seq<Payload>, v: Version, ecl: Ecc, boostEcl: bool, e: Ecc)
    requires LevelChosen(ps, v, ecl, boostEcl, e)
    ensures Fits(ps, v, e)
  {
    hide Fits;
  }

  /** All versions, automatic mask, level raised as far as possible. */
  method EncodeSegments(segs: seq<Segment>, ecl: Ecc, tempBuffer: array<byte>, qrcode: array<byte>) returns (ok: bool)
    requires AllReadable(segs) && (forall i | 0 <= i < |segs| :: segs[i].data != qrcode) && tempBuffer != qrcode
    requires BufferLength(Side(40)) <= tempBuffer.Length && BufferLength(Side(40)) <= qrcode.Length
    modifies tempBuffer, qrcode
    ensures ok == old(SomeFits(Payloads(segs), 1, 40, ecl))
    ensures ok ==> Valid(qrcode[..]) && IsEncoding(old(Payloads(segs)), ecl, 1, 40, MASK_AUTO, true, View(qrcode[..]))
    ensures !ok ==> qrcode.Length > 0 && qrcode[0] == 0
  {
    hide View, BufferLength, SomeFits, Payloads, IsEncoding;
    ok := EncodeSegmentsAdvanced(segs, ecl, 1, 40, MASK_AUTO, true, tempBuffer, qrcode);
  }
}
