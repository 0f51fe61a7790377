/** The way back: reading the segments off a finished symbol. */
module Decoder {
  import opened Bitwise
  import opened BitStream
  import opened DataStream
  import opened Tables
  import opened Versions
  import opened Interleaving
  import opened Symbol
  import opened FunctionModules
  import opened Zigzag
  import opened Drawing
  import opened Masking
  import opened Candidates
  import opened Appearance
  import opened CheckBits

  // ----- Format information

  function FormatRead(g: Grid): nat {
    ValueOf(seq(15, k requires 0 <= k < 15 => DarkAt(g, FormatPlace(14 - k))))
  }

  function LevelRead(g: Grid): Ecc {
    ECL_BITS[Shr(Xor(FormatRead(g), 0x5412), 10) / 8 % 4]
  }

  function MaskRead(g: Grid): Mask {
    Shr(Xor(FormatRead(g), 0x5412), 10) % 8
  }

  lemma FormatRecovered(v: Version, base: Grid, ecl: Ecc, m: Mask)
    requires Square(base, Side(v))
    ensures FormatRead(Candidate(v, base, ecl, m)) == FormatBits(ecl, m)
  {
    hide Candidate, FormatBits, ValueOf, DarkAt, FormatPlace, Pow2;
    var g, bits := Candidate(v, base, ecl, m), FormatBits(ecl, m);
    var s := seq(15, k requires 0 <= k < 15 => DarkAt(g, FormatPlace(14 - k)));
    forall k | 0 <= k < 15
      ensures s[k] == BitsOf(bits, 15)[k]
    {
      FormatReadable(v, base, ecl, m, 14 - k);
    }
    assert s == BitsOf(bits, 15);
    FormatBounded(ecl, m);
    ValueOfBits(bits, 15);
  }

  /** The level and the mask can be read off a candidate. */
  lemma LevelAndMaskRecovered(v: Version, base: Grid, ecl: Ecc, m: Mask)
    requires Square(base, Side(v))
    ensures LevelRead(Candidate(v, base, ecl, m)) == ecl && MaskRead(Candidate(v, base, ecl, m)) == m
  {
    hide Candidate, FormatBits, FormatRead, Shr, Xor, Pow2;
    FormatRecovered(v, base, ecl, m);
    FormatBounded(ecl, m);
    LevelCodes(ecl);
  }

  lemma LevelCodes(ecl: Ecc)
    ensures 0 <= ECL_BITS[ecl] < 4 && ECL_BITS[ECL_BITS[ecl]] == ecl
  {
  }

  // ----- Codewords

  lemma WholeBytesRead(v: Version)
    ensures 0 <= 8 * RawCodewords(v) <= |DataCells(v)|
  {
    hide DataCells, NumRawDataModules, RawCodewords;
    DataCellsFine(v);
  }

  function FirstBytes(s: Bits, n: nat): (b: seq<byte>)
    requires 8 * n <= |s|
    ensures |b| == n
  {
    BytesOf(s[..8 * n])
  }

  /** The codewords on the data modules of an unmasked grid. */
  function CodewordsRead(v: Version, g: Grid): (raw: seq<byte>)
    ensures |raw| == RawCodewords(v)
  {
    WholeBytesRead(v);
    FirstBytes(Read(g, DataCells(v)), RawCodewords(v))
  }

  lemma ReadSame(g: Grid, h: Grid, cells: seq<Cell>)
    requires forall k | 0 <= k < |cells| :: DarkAt(g, cells[k]) == DarkAt(h, cells[k])
    ensures Read(g, cells) == Read(h, cells)
  {
  }

  lemma DataCellInside(v: Version, g: Grid, k: nat)
    requires Square(g, Side(v)) && k < |DataCells(v)|
    ensures var c := DataCells(v)[k]; Inside(Side(v), c.x, c.y) && DarkAt(g, c) == At(g, c.x, c.y)
    ensures var c := DataCells(v)[k]; !IsFunction(v, c.x, c.y)
  {
    hide DataCells, IsFunction;
    DataCellsFine(v);
  }

  /** The bits on the data modules survive the drawing of the function modules. */
  lemma DrawnRead(v: Version, raw: seq<byte>)
    requires |raw| == RawCodewords(v)
    ensures Read(Unmasked(v, raw), DataCells(v)) == Read(Placed(v, raw), DataCells(v))
  {
    hide DataCells, IsFunction, Placed, Drawn, DarkAt, RawCodewords;
    var g, h := Placed(v, raw), Unmasked(v, raw);
    forall k | 0 <= k < |DataCells(v)|
      ensures DarkAt(h, DataCells(v)[k]) == DarkAt(g, DataCells(v)[k])
    {
      var c := DataCells(v)[k];
      DataCellInside(v, g, k);
      DataCellInside(v, h, k);
      DrawnKeepsData(v, c.x, c.y, At(g, c.x, c.y));
    }
    ReadSame(h, g, DataCells(v));
  }

  lemma PlacedRead(v: Version, raw: seq<byte>)
    requires |raw| == RawCodewords(v)
    ensures CodewordsRead(v, Placed(v, raw)) == raw
  {
    hide DataCells, FunctionGrid, Place, RawCodewords, BytesOf, NumRawDataModules, Stream, Read, Distinct, AllInside;
    var cells, bits := DataCells(v), Stream(raw, 8 * RawCodewords(v));
    DataCellsFine(v);
    ReadPlace(FunctionGrid(v), Side(v), cells, bits);
    assert Read(Placed(v, raw), cells)[..8 * RawCodewords(v)] == bits;
    BytesOfStream(raw);
  }

  /** Unmasking a candidate brings its data modules back. */
  lemma UnmaskedRead(v: Version, base: Grid, ecl: Ecc, m: Mask)
    requires Square(base, Side(v))
    ensures Read(MaskGrid(FunctionGrid(v), Candidate(v, base, ecl, m), m), DataCells(v)) == Read(base, DataCells(v))
  {
    hide DataCells, IsFunction, Candidate, MaskGrid, FunctionGrid, DarkAt, SameOffFormat;
    var h := MaskGrid(FunctionGrid(v), Candidate(v, base, ecl, m), m);
    MaskUndone(v, base, ecl, m);
    forall k | 0 <= k < |DataCells(v)|
      ensures DarkAt(h, DataCells(v)[k]) == DarkAt(base, DataCells(v)[k])
    {
      var c := DataCells(v)[k];
      DataCellInside(v, h, k);
      DataCellInside(v, base, k);
      DataModulesKept(v, h, base, c.x, c.y);
    }
    ReadSame(h, base, DataCells(v));
  }

  // ----- The decoder

  /** Read the segments off a symbol of the given version. */
  function DecodeAt(v: Version, g: Grid): Option<seq<Payload>>
    requires Square(g, Side(v))
  {
    var l := LayoutOf(v, LevelRead(g));
    var raw := CodewordsRead(v, MaskGrid(FunctionGrid(v), g, MaskRead(g)));
    var data := Deinterleaved(raw, l);
    Parse(Stream(data, 8 * |data|), v)
  }

  /** Read the segments off a symbol, whose side tells the version. */
  function Decode(g: Grid): Option<seq<Payload>> {
    if 21 <= |g| <= 177 && |g| % 4 == 1 && Square(g, |g|) then DecodeAt((|g| - 17) / 4, g) else None
  }

  lemma CodewordsRecovered(v: Version, raw: seq<byte>, ecl: Ecc, m: Mask)
    requires |raw| == RawCodewords(v)
    ensures CodewordsRead(v, MaskGrid(FunctionGrid(v), Candidate(v, Unmasked(v, raw), ecl, m), m)) == raw
  {
    hide Unmasked, Placed, MaskGrid, FunctionGrid, Candidate, DataCells, Read, BytesOf, RawCodewords, NumRawDataModules;
    UnmaskedRead(v, Unmasked(v, raw), ecl, m);
    DrawnRead(v, raw);
    PlacedRead(v, raw);
  }

  lemma DataRecovered(ps: seq<Payload>, v: Version, ecl: Ecc)
    requires Fits(ps, v, ecl) && AllWellFormed(ps)
    ensures var data := Deinterleaved(Codewords(ps, v, ecl), LayoutOf(v, ecl));
            Parse(Stream(data, 8 * |data|), v) == Some(ps)
  {
    hide FullStream, Interleaved, Deinterleaved, NumDataCodewords, RawCodewords, BytesOf, AllWellFormed, Parse,
         Encodable;
    var data := DataCodewords(ps, v, ecl);
    InterleaveRoundTrip(data, LayoutOf(v, ecl));
    assert data[..|data|] == data;
    StreamOfBytes(FullStream(ps, v, NumDataCodewords(v, ecl) * 8));
    StreamRoundTrip(ps, v, NumDataCodewords(v, ecl) * 8);
  }

  /** Decoding the symbol of well-formed segments gives the segments back, at every version, level and mask. */
  lemma SymbolRoundTrip(ps: seq<Payload>, v: Version, ecl: Ecc, m: Mask)
    requires Fits(ps, v, ecl) && AllWellFormed(ps)
    ensures Decode(SymbolOf(ps, v, ecl, m)) == Some(ps)
  {
    hide Fits, AllWellFormed, Codewords, Unmasked, Candidate, LevelRead, MaskRead, CodewordsRead, MaskGrid,
         FunctionGrid, Deinterleaved, Parse, RawCodewords, Square;
    var raw := Codewords(ps, v, ecl);
    var base := Unmasked(v, raw);
    LevelAndMaskRecovered(v, base, ecl, m);
    CodewordsRecovered(v, raw, ecl, m);
    DataRecovered(ps, v, ecl);
    SquareSide(SymbolOf(ps, v, ecl, m), v);
  }

  lemma SquareSide(g: Grid, v: Version)
    requires Square(g, Side(v))
    ensures |g| == Side(v) && 21 <= |g| <= 177 && |g| % 4 == 1 && (|g| - 17) / 4 == v
  {
  }

  /** Whatever symbol the encoder returns, decoding it gives the segments that went in. */
  lemma EncodingRoundTrip(ps: seq<Payload>, ecl: Ecc, minVersion: Version, maxVersion: Version, mask: int,
                          boostEcl: bool, g: Grid)
    requires AllWellFormed(ps) && IsEncoding(ps, ecl, minVersion, maxVersion, mask, boostEcl, g)
    ensures Decode(g) == Some(ps)
  {
    hide AllWellFormed, Meets, SymbolOf, Fits, Decode;
    var v: Version, e: Ecc, m: Mask :|
      Meets(ps, ecl, minVersion, maxVersion, mask, boostEcl, v, e, m) && Fits(ps, v, e) && g == SymbolOf(ps, v, e, m);
    SymbolRoundTrip(ps, v, e, m);
  }

  // ----- Damaged symbols

  /** The number of the first k modules of the first copy of the format information that differ. */
  function FormatErrors(h: Grid, g: Grid, k: nat): nat {
    if k == 0 then 0
    else FormatErrors(h, g, k - 1) + One(DarkAt(h, FormatPlace(k - 1)) != DarkAt(g, FormatPlace(k - 1)))
  }

  /** Unmasked, in every block at most half as many codewords are wrong as there are error correction codewords. */
  ghost predicate CodewordsNear(h: Grid, m: Mask, ps: seq<Payload>, v: Version, ecl: Ecc)
    requires Fits(ps, v, ecl) && Square(h, Side(v))
  {
    WithinTolerance(CodewordsRead(v, MaskGrid(FunctionGrid(v), h, m)), DataCodewords(ps, v, ecl), LayoutOf(v, ecl))
  }

  /**
   What may have become of a symbol: at most three modules of the first copy of its format information
   are wrong, and its codewords are near enough.
   */
  ghost predicate DamagedFrom(h: Grid, ps: seq<Payload>, v: Version, ecl: Ecc, m: Mask)
    requires Fits(ps, v, ecl)
  {
    && Square(h, Side(v)) && FormatErrors(h, SymbolOf(ps, v, ecl, m), 15) <= 3
    && CodewordsNear(h, m, ps, v, ecl)
  }

  lemma {:induction false} FormatTriangle(h: Grid, v: Version, base: Grid, ecl: Ecc, m: Mask,
                                          base': Grid, ecl': Ecc, m': Mask, k: nat)
    requires Square(base, Side(v)) && Square(base', Side(v)) && k <= 15
    ensures Differences(FormatBits(ecl, m), FormatBits(ecl', m'), k)
         <= FormatErrors(h, Candidate(v, base, ecl, m), k) + FormatErrors(h, Candidate(v, base', ecl', m'), k)
  {
    hide Candidate, FormatBits, Bit, DarkAt, FormatPlace;
    if k > 0 {
      FormatTriangle(h, v, base, ecl, m, base', ecl', m', k - 1);
      FormatReadable(v, base, ecl, m, k - 1);
      FormatReadable(v, base', ecl', m', k - 1);
    }
  }

  /** Three wrong modules leave one level and mask possible. */
  lemma FormatTolerates(h: Grid, v: Version, base: Grid, ecl: Ecc, m: Mask, base': Grid, ecl': Ecc, m': Mask)
    requires Square(base, Side(v)) && Square(base', Side(v))
    requires FormatErrors(h, Candidate(v, base, ecl, m), 15) <= 3
    requires FormatErrors(h, Candidate(v, base', ecl', m'), 15) <= 3
    ensures ecl == ecl' && m == m'
  {
    hide Candidate, FormatBits, FormatErrors, Differences;
    FormatTriangle(h, v, base, ecl, m, base', ecl', m', 15);
    if ecl != ecl' || m != m' { FormatDistance(ecl, m, ecl', m'); }
  }

  lemma DataAgrees(h: Grid, ps: seq<Payload>, qs: seq<Payload>, v: Version, ecl: Ecc, m: Mask)
    requires Fits(ps, v, ecl) && AllWellFormed(ps) && Fits(qs, v, ecl) && AllWellFormed(qs) && Square(h, Side(v))
    requires CodewordsNear(h, m, ps, v, ecl)
    requires CodewordsNear(h, m, qs, v, ecl)
    ensures ps == qs
  {
    hide Fits, AllWellFormed, DataCodewords, WithinTolerance, MaskGrid, FunctionGrid, CodewordsRead, Parse,
         Deinterleaved, RawCodewords, NumDataCodewords, Interleaved;
    var received := CodewordsRead(v, MaskGrid(FunctionGrid(v), h, m));
    ToleratesErrors(v, ecl, DataCodewords(ps, v, ecl), DataCodewords(qs, v, ecl), received);
    DataRecovered(ps, v, ecl);
    DataRecovered(qs, v, ecl);
  }

  /** A damaged symbol can have come from one list of segments only, at one version, level and mask. */
  lemma DamagedSymbol(h: Grid, ps: seq<Payload>, v: Version, ecl: Ecc, m: Mask,
                      qs: seq<Payload>, v': Version, ecl': Ecc, m': Mask)
    requires Fits(ps, v, ecl) && AllWellFormed(ps) && DamagedFrom(h, ps, v, ecl, m)
    requires Fits(qs, v', ecl') && AllWellFormed(qs) && DamagedFrom(h, qs, v', ecl', m')
    ensures v == v' && ecl == ecl' && m == m' && ps == qs
  {
    hide Fits, AllWellFormed, CodewordsNear, FormatErrors, Candidate, Unmasked, Codewords, RawCodewords;
    SquareSide(h, v);
    SquareSide(h, v');
    FormatTolerates(h, v, Unmasked(v, Codewords(ps, v, ecl)), ecl, m, Unmasked(v, Codewords(qs, v', ecl')), ecl', m');
    DataAgrees(h, ps, qs, v, ecl, m);
  }

  lemma {:induction false} NoFormatErrors(g: Grid, k: nat)
    ensures FormatErrors(g, g, k) == 0
  {
    hide DarkAt, FormatPlace;
    if k > 0 { NoFormatErrors(g, k - 1); }
  }

  /** The undamaged symbol is among them. */
  lemma Undamaged(ps: seq<Payload>, v: Version, ecl: Ecc, m: Mask)
    requires Fits(ps, v, ecl)
    ensures DamagedFrom(SymbolOf(ps, v, ecl, m), ps, v, ecl, m)
  {
    hide Fits, WithinTolerance, Unmasked, Candidate, CodewordsRead, MaskGrid, FunctionGrid, DataCodewords, RawCodewords,
         NumDataCodewords, FormatErrors, Interleaved;
    CodewordsRecovered(v, Codewords(ps, v, ecl), ecl, m);
    NothingWrong(DataCodewords(ps, v, ecl), LayoutOf(v, ecl));
    NoFormatErrors(SymbolOf(ps, v, ecl, m), 15);
  }

  /**
   Damage of at most three modules of the format information and the documented share of the codewords
   of every block is of this kind.
   */
  lemma DocumentedDamage(h: Grid, ps: seq<Payload>, v: Version, ecl: Ecc, m: Mask)
    requires Fits(ps, v, ecl) && Square(h, Side(v)) && FormatErrors(h, SymbolOf(ps, v, ecl, m), 15) <= 3
    requires DamagedAtMost(CodewordsRead(v, MaskGrid(FunctionGrid(v), h, m)), DataCodewords(ps, v, ecl),
                           LayoutOf(v, ecl), Percent(ecl))
    ensures DamagedFrom(h, ps, v, ecl, m)
  {
    hide Fits, WithinTolerance, DamagedAtMost, FormatErrors, SymbolOf, CodewordsRead, MaskGrid, FunctionGrid,
         DataCodewords, RawCodewords, NumDataCodewords, Percent;
    DocumentedShare(v, ecl, DataCodewords(ps, v, ecl), CodewordsRead(v, MaskGrid(FunctionGrid(v), h, m)));
  }
}
