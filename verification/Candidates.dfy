/** What the encoder is to produce: the symbol of given segments, version, level and mask. */
module Candidates {
  import opened Bitwise
  import opened BitStream
  import opened DataStream
  import opened Tables
  import opened Versions
  import opened Interleaving
  import opened Symbol
  import opened FunctionModules
  import opened Zigzag
  import opened Capacity
  import opened Drawing
  import opened Masking
  import opened Scoring

  // ----- Up to the mask

  /** The data codewords of the segments. */
  function DataCodewords(ps: seq<Payload>, v: Version, ecl: Ecc): (data: seq<byte>)
    requires Fits(ps, v, ecl)
    ensures |data| == NumDataCodewords(v, ecl)
  {
    BytesOf(FullStream(ps, v, NumDataCodewords(v, ecl) * 8))
  }

  /** All codewords, with error correction and interleaved. */
  function Codewords(ps: seq<Payload>, v: Version, ecl: Ecc): (raw: seq<byte>)
    requires Fits(ps, v, ecl)
    ensures |raw| == RawCodewords(v)
  {
    Interleaved(DataCodewords(ps, v, ecl), LayoutOf(v, ecl))
  }

  /** The data modules in the order of the walk. */
  function DataCells(v: Version): seq<Cell> {
    LightCells(FunctionGrid(v), Path(Side(v)))
  }

  lemma DataCellsFine(v: Version)
    ensures |DataCells(v)| == NumRawDataModules(v) && 0 <= 8 * RawCodewords(v) <= NumRawDataModules(v)
    ensures AllInside(Side(v), DataCells(v)) && Distinct(DataCells(v))
    ensures forall k | 0 <= k < |DataCells(v)| ::
              && Inside(Side(v), DataCells(v)[k].x, DataCells(v)[k].y)
              && !IsFunction(v, DataCells(v)[k].x, DataCells(v)[k].y)
  {
    hide LightCells, Path, FunctionGrid, NumRawDataModules, AllInside, IsFunction, Distinct;
    CapacityFormula(v);
    LightInside(Side(v), FunctionGrid(v));
    WholeBytes(NumRawDataModules(v), RawCodewords(v));
    CellsOpen(v);
  }

  lemma WholeBytes(modules: int, bytes: int)
    requires modules >= 0 && bytes == modules / 8
    ensures 0 <= 8 * bytes <= modules
  {
  }

  lemma CellsOpen(v: Version)
    ensures forall k | 0 <= k < |DataCells(v)| ::
              && Inside(Side(v), DataCells(v)[k].x, DataCells(v)[k].y)
              && !IsFunction(v, DataCells(v)[k].x, DataCells(v)[k].y)
  {
    hide LightCells, Path, IsFunction, Piece;
    forall k | 0 <= k < |DataCells(v)|
      ensures Inside(Side(v), DataCells(v)[k].x, DataCells(v)[k].y)
      ensures !IsFunction(v, DataCells(v)[k].x, DataCells(v)[k].y)
    {
      var c := DataCells(v)[k];
      assert c in DataCells(v);
      DataCellsAre(v, c);
      PieceIsFunction(v, c.x, c.y);
    }
  }

  /** The marked function modules with the codewords on the data modules. */
  function Placed(v: Version, raw: seq<byte>): (g: Grid)
    requires |raw| == RawCodewords(v)
    ensures Square(g, Side(v))
  {
    DataCellsFine(v);
    PlaceSquare(FunctionGrid(v), Side(v), DataCells(v), Stream(raw, 8 * RawCodewords(v)));
    Place(FunctionGrid(v), DataCells(v), Stream(raw, 8 * RawCodewords(v)))
  }

  /** The symbol before a mask is applied and format information drawn. */
  function Unmasked(v: Version, raw: seq<byte>): (g: Grid)
    requires |raw| == RawCodewords(v)
    ensures Square(g, Side(v))
  {
    DrawnGrid(v, Placed(v, raw))
  }

  // ----- The eight candidates

  /** The complete symbol for a mask. */
  function Candidate(v: Version, base: Grid, ecl: Ecc, m: Mask): (g: Grid)
    requires Square(base, Side(v))
    ensures Square(g, Side(v))
  {
    FormatGrid(MaskGrid(FunctionGrid(v), base, m), FormatBits(ecl, m))
  }

  /** Two grids that differ on modules of the format information only. */
  ghost predicate SameOffFormat(v: Version, g: Grid, h: Grid) {
    && Square(g, Side(v)) && Square(h, Side(v))
    && forall x, y | Inside(Side(v), x, y) && FormatIndex(Side(v), x, y) == 16 :: At(g, x, y) == At(h, x, y)
  }

  /** Format information overwrites whatever differs: the candidates of both grids are the same. */
  lemma FormatOverwrites(v: Version, g: Grid, h: Grid, ecl: Ecc, m: Mask)
    requires SameOffFormat(v, g, h)
    ensures Candidate(v, g, ecl, m) == Candidate(v, h, ecl, m)
  {
    hide FormatBits, FormatIndex, Inverts, IsFunction;
    GridsEqual(Candidate(v, g, ecl, m), Candidate(v, h, ecl, m), Side(v));
  }

  /** Applying the mask once more undoes it everywhere but on the format information. */
  lemma MaskUndone(v: Version, g: Grid, ecl: Ecc, m: Mask)
    requires Square(g, Side(v))
    ensures SameOffFormat(v, MaskGrid(FunctionGrid(v), Candidate(v, g, ecl, m), m), g)
  {
    hide FormatBits, FormatIndex, Inverts, IsFunction;
  }

  /** All data modules are then as they were. */
  lemma DataModulesKept(v: Version, g: Grid, h: Grid, x: int, y: int)
    requires SameOffFormat(v, g, h) && Inside(Side(v), x, y) && !IsFunction(v, x, y)
    ensures At(g, x, y) == At(h, x, y)
  {
    hide FormatIndex, IsFunction;
    if FormatIndex(Side(v), x, y) != 16 { FormatOnFunctions(v, x, y); }
  }

  ghost function CandidateScore(v: Version, base: Grid, ecl: Ecc, m: Mask): int
    requires Square(base, Side(v))
  {
    var g := Candidate(v, base, ecl, m);
    Score(g)
  }

  lemma CandidateScoreBounded(v: Version, base: Grid, ecl: Ecc, m: Mask)
    requires Square(base, Side(v))
    ensures 0 <= CandidateScore(v, base, ecl, m) < LONG_MAX
  {
    hide Score, Candidate;
    ScoreBounded(Candidate(v, base, ecl, m), Side(v));
  }

  /** No mask scores lower than m, and none before m scores as low. */
  ghost predicate BestMask(v: Version, base: Grid, ecl: Ecc, m: Mask)
    requires Square(base, Side(v))
  {
    forall k: Mask :: CandidateScore(v, base, ecl, m) <= CandidateScore(v, base, ecl, k)
                      && (k < m ==> CandidateScore(v, base, ecl, m) < CandidateScore(v, base, ecl, k))
  }

  lemma BestMaskUnique(v: Version, base: Grid, ecl: Ecc, m: Mask, m': Mask)
    requires Square(base, Side(v)) && BestMask(v, base, ecl, m) && BestMask(v, base, ecl, m')
    ensures m == m'
  {
    hide CandidateScore;
    assert CandidateScore(v, base, ecl, m) == CandidateScore(v, base, ecl, m');
  }

  /** The mask used: the requested one, or the best one if -1 is requested. */
  ghost predicate MaskChosen(v: Version, base: Grid, ecl: Ecc, mask: int, m: Mask)
    requires Square(base, Side(v))
  {
    if mask == -1 then BestMask(v, base, ecl, m) else m == mask
  }

  // ----- The result

  /** The symbol of the segments at a version, level and mask. */
  function SymbolOf(ps: seq<Payload>, v: Version, ecl: Ecc, m: Mask): (g: Grid)
    requires Fits(ps, v, ecl)
    ensures Square(g, Side(v))
  {
    Candidate(v, Unmasked(v, Codewords(ps, v, ecl)), ecl, m)
  }

  /** What a request leaves to the encoder: version, level and mask are as it asks. */
  ghost predicate Meets(ps: seq<Payload>, ecl: Ecc, minVersion: Version, maxVersion: Version, mask: int, boostEcl: bool,
                        v: Version, e: Ecc, m: Mask)
  {
    && SmallestVersion(ps, minVersion, maxVersion, ecl, v)
    && LevelChosen(ps, v, ecl, boostEcl, e)
    && MaskChosen(v, Unmasked(v, Codewords(ps, v, e)), e, mask, m)
  }

  /** The grid is the symbol that the request determines. */
  ghost predicate IsEncoding(ps: seq<Payload>, ecl: Ecc, minVersion: Version, maxVersion: Version, mask: int,
                             boostEcl: bool, g: Grid)
  {
    exists v: Version, e: Ecc, m: Mask ::
      Meets(ps, ecl, minVersion, maxVersion, mask, boostEcl, v, e, m) && Fits(ps, v, e) && g == SymbolOf(ps, v, e, m)
  }

  /** A request determines the version, the level, the mask, and so the symbol. */
  lemma ChoiceUnique(ps: seq<Payload>, ecl: Ecc, minVersion: Version, maxVersion: Version, mask: int, boostEcl: bool,
                     v: Version, e: Ecc, m: Mask, v': Version, e': Ecc, m': Mask)
    requires Meets(ps, ecl, minVersion, maxVersion, mask, boostEcl, v, e, m)
    requires Meets(ps, ecl, minVersion, maxVersion, mask, boostEcl, v', e', m')
    ensures v == v' && e == e' && m == m'
  {
    hide Fits, Unmasked, CandidateScore, Codewords, BestMask;
    if mask == -1 { BestMaskUnique(v, Unmasked(v, Codewords(ps, v, e)), e, m, m'); }
  }

  lemma EncodingUnique(ps: seq<Payload>, ecl: Ecc, minVersion: Version, maxVersion: Version, mask: int, boostEcl: bool,
                       g: Grid, h: Grid)
    requires IsEncoding(ps, ecl, minVersion, maxVersion, mask, boostEcl, g)
    requires IsEncoding(ps, ecl, minVersion, maxVersion, mask, boostEcl, h)
    ensures g == h
  {
    hide Meets, SymbolOf, Fits;
    var v: Version, e: Ecc, m: Mask :|
      Meets(ps, ecl, minVersion, maxVersion, mask, boostEcl, v, e, m)
      && Fits(ps, v, e) && g == SymbolOf(ps, v, e, m);
    var v': Version, e': Ecc, m': Mask :|
      Meets(ps, ecl, minVersion, maxVersion, mask, boostEcl, v', e', m')
      && Fits(ps, v', e') && h == SymbolOf(ps, v', e', m');
    ChoiceUnique(ps, ecl, minVersion, maxVersion, mask, boostEcl, v, e, m, v', e', m');
  }
}
