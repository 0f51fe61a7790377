/** What a finished symbol looks like: its patterns, and its version and format information. */
module Appearance {
  import opened Bitwise
  import opened BitStream
  import opened Tables
  import opened Symbol
  import opened FunctionModules
  import opened Zigzag
  import opened Capacity
  import opened Drawing
  import opened Masking
  import opened CheckBits
  import opened Candidates

  /** The symbol of some codewords at a version, level and mask. */
  function Finished(v: Version, raw: seq<byte>, ecl: Ecc, m: Mask): (g: Grid)
    requires |raw| == RawCodewords(v)
    ensures Square(g, Side(v))
  {
    Candidate(v, Unmasked(v, raw), ecl, m)
  }

  /** Placing the codewords leaves every function module marked. */
  lemma FunctionModulesKept(v: Version, raw: seq<byte>, x: int, y: int)
    requires |raw| == RawCodewords(v) && Inside(Side(v), x, y) && IsFunction(v, x, y)
    ensures At(Placed(v, raw), x, y)
  {
    hide DataCells, IsFunction, Place, RawCodewords, NumRawDataModules, Distinct;
    var cells, bits, f := DataCells(v), Stream(raw, 8 * RawCodewords(v)), FunctionGrid(v);
    DataCellsFine(v);
    PlaceElsewhere(f, Side(v), cells, bits, Cell(x, y));
    assert At(f, x, y);
  }

  /** Mask and codewords do not matter for a function module. */
  lemma FunctionModuleIs(v: Version, raw: seq<byte>, ecl: Ecc, m: Mask, x: int, y: int)
    requires |raw| == RawCodewords(v) && Inside(Side(v), x, y) && IsFunction(v, x, y)
    ensures At(Finished(v, raw, ecl, m), x, y) == Formatted(Side(v), FormatBits(ecl, m), x, y, Drawn(v, x, y, true))
  {
    hide IsFunction, Placed, Drawn, Formatted, FormatBits, RawCodewords, Inverts;
    FunctionModulesKept(v, raw, x, y);
    var base := Unmasked(v, raw);
    assert At(base, x, y) == Drawn(v, x, y, true);
    assert At(MaskGrid(FunctionGrid(v), base, m), x, y) == At(base, x, y);
  }

  // ----- Timing patterns

  predicate OnTiming(n: int, x: int, y: int) {
    (x == 6 && 8 <= y < n - 8) || (y == 6 && 8 <= x < n - 8)
  }

  lemma TimingInCore(v: Version, x: int, y: int)
    requires OnTiming(Side(v), x, y) && InAlignmentCore(v, x, y)
    ensures AlignmentCentre(v, x, y) == ((x + y) % 2 == 0)
  {
    hide Near, AlignPos;
    NearZero(v, x);
    NearZero(v, y);
    AlignShape(v, Near(v, x));
    AlignShape(v, Near(v, y));
    AlignFirst(v);
  }

  lemma TimingElsewhere(v: Version, x: int, y: int)
    requires OnTiming(Side(v), x, y)
    ensures VersionIndex(v, x, y) == 18 && !LightFinder(Side(v), x, y)
    ensures LightTiming(Side(v), x, y) == ((x + y) % 2 != 0)
  {
  }

  lemma TimingColour(v: Version, x: int, y: int)
    requires OnTiming(Side(v), x, y)
    ensures Drawn(v, x, y, true) == ((x + y) % 2 == 0)
  {
    hide InAlignmentCore, AlignmentCentre, LightFinder, LightTiming, VersionIndex, VersionBits, OnTiming;
    TimingElsewhere(v, x, y);
    if InAlignmentCore(v, x, y) { TimingInCore(v, x, y); }
  }

  lemma TimingUnformatted(n: nat, x: int, y: int)
    requires n >= 21 && OnTiming(n, x, y)
    ensures FormatIndex(n, x, y) == 16
  {
  }

  /** The timing patterns alternate all the way, also where alignment patterns lie across them. */
  lemma TimingAlternates(v: Version, raw: seq<byte>, ecl: Ecc, m: Mask, i: int)
    requires |raw| == RawCodewords(v) && 8 <= i < Side(v) - 8
    ensures At(Finished(v, raw, ecl, m), 6, i) == At(Finished(v, raw, ecl, m), i, 6) == (i % 2 == 0)
  {
    hide Finished, Drawn, RawCodewords, InFinder, InAlignment, InVersionBlock, FormatIndex, FormatBits;
    FunctionModuleIs(v, raw, ecl, m, 6, i);
    FunctionModuleIs(v, raw, ecl, m, i, 6);
    TimingColour(v, 6, i);
    TimingColour(v, i, 6);
    TimingUnformatted(Side(v), 6, i);
    TimingUnformatted(Side(v), i, 6);
  }

  // ----- Finder patterns

  predicate FinderCentre(n: nat, cx: int, cy: int) {
    (cx == 3 && cy == 3) || (cx == n - 4 && cy == 3) || (cx == 3 && cy == n - 4)
  }

  lemma NotInCore(v: Version, x: int, y: int)
    requires InFinder(v, x, y) && Inside(Side(v), x, y)
    ensures !InAlignmentCore(v, x, y)
  {
    hide Near, AlignPos, Chebyshev;
    NearZero(v, x);
    NearZero(v, y);
  }

  lemma FinderLight(n: nat, cx: int, cy: int, x: int, y: int)
    requires n >= 21 && FinderCentre(n, cx, cy) && Inside(n, x, y) && Chebyshev(x - cx, y - cy) <= 4
    ensures LightFinder(n, x, y) == Ring(x - cx, y - cy)
  {
  }

  lemma FinderTiming(n: nat, cx: int, cy: int, x: int, y: int)
    requires n >= 21 && FinderCentre(n, cx, cy) && Inside(n, x, y) && Chebyshev(x - cx, y - cy) <= 4
    ensures LightTiming(n, x, y) ==> Ring(x - cx, y - cy)
    ensures FormatIndex(n, x, y) == 16
  {
  }

  lemma FinderPlace(v: Version, cx: int, cy: int, x: int, y: int)
    requires FinderCentre(Side(v), cx, cy) && Inside(Side(v), x, y) && Chebyshev(x - cx, y - cy) <= 4
    ensures InFinder(v, x, y) && VersionIndex(v, x, y) == 18
  {
  }

  lemma FinderColour(v: Version, cx: int, cy: int, x: int, y: int)
    requires FinderCentre(Side(v), cx, cy) && Inside(Side(v), x, y) && Chebyshev(x - cx, y - cy) <= 4
    ensures InFinder(v, x, y) && FormatIndex(Side(v), x, y) == 16
    ensures Drawn(v, x, y, true) == (Chebyshev(x - cx, y - cy) in {0, 1, 3})
  {
    hide InAlignmentCore, AlignmentCentre, VersionBits, Chebyshev, LightFinder, LightTiming, VersionIndex,
         FinderCentre, FormatIndex;
    FinderPlace(v, cx, cy, x, y);
    FinderLight(Side(v), cx, cy, x, y);
    FinderTiming(Side(v), cx, cy, x, y);
    NotInCore(v, x, y);
    Distances(x - cx, y - cy);
  }

  lemma Distances(dx: int, dy: int)
    ensures Chebyshev(dx, dy) >= 0
  {
  }

  /** Around each of the three corners there are a dark square of three, a light ring, a dark ring and a light ring. */
  lemma FinderPatterns(v: Version, raw: seq<byte>, ecl: Ecc, m: Mask, cx: int, cy: int, x: int, y: int)
    requires |raw| == RawCodewords(v)
    requires FinderCentre(Side(v), cx, cy) && Inside(Side(v), x, y) && Chebyshev(x - cx, y - cy) <= 4
    ensures At(Finished(v, raw, ecl, m), x, y) == (Chebyshev(x - cx, y - cy) in {0, 1, 3})
  {
    hide Finished, Drawn, RawCodewords, InFinder, InAlignment, InVersionBlock, FormatIndex, FormatBits,
         FinderCentre, Chebyshev;
    FinderColour(v, cx, cy, x, y);
    FunctionModuleIs(v, raw, ecl, m, x, y);
  }

  // ----- Alignment patterns

  /** Between the finders: where alignment patterns lie. */
  predicate Between(n: nat, x: int, y: int) {
    (16 <= x < n && 16 <= y < n) || (4 <= x <= 8 && 16 <= y <= n - 17) || (16 <= x <= n - 17 && 4 <= y <= 8)
  }

  lemma AlignmentPlace(v: Version, i: nat, j: nat, x: int, y: int)
    requires i < NumAlign(v) && j < NumAlign(v) && !Corner(v, i, j)
    requires Chebyshev(x - AlignPos(v, i), y - AlignPos(v, j)) <= 2
    ensures Near(v, x) == i && Near(v, y) == j && Between(Side(v), x, y)
  {
    hide Near, AlignPos;
    AlignShape(v, i);
    AlignShape(v, j);
    NearIs(v, x, i);
    NearIs(v, y, j);
    NearZero(v, x);
    NearZero(v, y);
  }

  lemma BetweenIsFree(v: Version, x: int, y: int)
    requires Between(Side(v), x, y)
    ensures Inside(Side(v), x, y) && FormatIndex(Side(v), x, y) == 16
    ensures VersionIndex(v, x, y) == 18 && !LightFinder(Side(v), x, y)
  {
  }

  lemma AlignmentTiming(v: Version, i: nat, j: nat, x: int, y: int)
    requires i < NumAlign(v) && j < NumAlign(v) && Near(v, x) == i && Near(v, y) == j
    requires Chebyshev(x - AlignPos(v, i), y - AlignPos(v, j)) == 2
    ensures !LightTiming(Side(v), x, y)
  {
    hide Near, AlignPos;
    AlignShape(v, i);
    AlignShape(v, j);
    AlignFirst(v);
    NearZero(v, x);
    NearZero(v, y);
  }

  lemma AlignmentColour(v: Version, i: nat, j: nat, x: int, y: int)
    requires i < NumAlign(v) && j < NumAlign(v) && !Corner(v, i, j)
    requires Chebyshev(x - AlignPos(v, i), y - AlignPos(v, j)) <= 2
    ensures Inside(Side(v), x, y) && InAlignment(v, x, y) && FormatIndex(Side(v), x, y) == 16
    ensures Drawn(v, x, y, true) == (Chebyshev(x - AlignPos(v, i), y - AlignPos(v, j)) != 1)
  {
    hide Near, AlignPos, VersionBits, VersionIndex, LightFinder, LightTiming, Between, FormatIndex;
    AlignmentPlace(v, i, j, x, y);
    BetweenIsFree(v, x, y);
    if Chebyshev(x - AlignPos(v, i), y - AlignPos(v, j)) == 2 { AlignmentTiming(v, i, j, x, y); }
  }

  /** Every alignment pattern is a dark square of five with a light ring around its dark centre. */
  lemma AlignmentPatterns(v: Version, raw: seq<byte>, ecl: Ecc, m: Mask, i: nat, j: nat, x: int, y: int)
    requires |raw| == RawCodewords(v) && i < NumAlign(v) && j < NumAlign(v) && !Corner(v, i, j)
    requires Chebyshev(x - AlignPos(v, i), y - AlignPos(v, j)) <= 2
    ensures Inside(Side(v), x, y)
    ensures At(Finished(v, raw, ecl, m), x, y) == (Chebyshev(x - AlignPos(v, i), y - AlignPos(v, j)) != 1)
  {
    hide Finished, Drawn, RawCodewords, InFinder, InAlignment, InVersionBlock, FormatIndex, FormatBits, AlignPos,
         Chebyshev;
    AlignmentColour(v, i, j, x, y);
    FunctionModuleIs(v, raw, ecl, m, x, y);
  }

  // ----- Version information

  lemma VersionModule(v: Version, i: nat, j: nat, x: int, y: int)
    requires v >= 7 && i < 6 && j < 3
    requires (x == Side(v) - 11 + j && y == i) || (x == i && y == Side(v) - 11 + j)
    ensures Inside(Side(v), x, y) && InVersionBlock(v, x, y) && FormatIndex(Side(v), x, y) == 16
    ensures VersionIndex(v, x, y) == 3 * i + j
  {
  }

  /** From version 7 on, both version blocks hold the version and its check bits. */
  lemma VersionReadable(v: Version, raw: seq<byte>, ecl: Ecc, m: Mask, i: nat, j: nat)
    requires |raw| == RawCodewords(v) && v >= 7 && i < 6 && j < 3
    ensures var g, k := Finished(v, raw, ecl, m), Side(v) - 11 + j;
            At(g, k, i) == At(g, i, k) == Bit(VersionBits(v), 3 * i + j)
    ensures Shr(VersionBits(v), 12) == v
  {
    hide Finished, RawCodewords, InFinder, InAlignment, InVersionBlock, FormatIndex, FormatBits, VersionBits,
         VersionIndex, InAlignmentCore, Bit, Shr;
    var k := Side(v) - 11 + j;
    VersionModule(v, i, j, k, i);
    VersionModule(v, i, j, i, k);
    FunctionModuleIs(v, raw, ecl, m, k, i);
    FunctionModuleIs(v, raw, ecl, m, i, k);
    VersionHigh(v);
  }

  lemma VersionHigh(v: Version)
    ensures Shr(VersionBits(v), 12) == v
  {
    hide Or, CyclicRemainder;
    assert Pow2(12) == 4096;
    CyclicBounded(v, 12, 0x1F25, 12);
    JoinedHigh(v, CyclicRemainder(v, 12, 0x1F25, 12), 12);
  }

  // ----- Format information

  /** Where bit i of the format information lies around the top left finder. */
  function FormatPlace(i: nat): Cell {
    if i <= 5 then Cell(8, i)
    else if i == 6 then Cell(8, 7)
    else if i == 7 then Cell(8, 8)
    else if i == 8 then Cell(7, 8)
    else Cell(14 - i, 8)
  }

  /** Where it lies along the other two finders. */
  function FormatPlaceAgain(n: nat, i: nat): Cell {
    if i < 8 then Cell(n - 1 - i, 8) else Cell(8, n - 15 + i)
  }

  /** Both copies of the format information are complete, and the module beside them is dark. */
  lemma FormatReadable(v: Version, base: Grid, ecl: Ecc, m: Mask, i: nat)
    requires Square(base, Side(v)) && i < 15
    ensures DarkAt(Candidate(v, base, ecl, m), FormatPlace(i)) == Bit(FormatBits(ecl, m), i)
    ensures DarkAt(Candidate(v, base, ecl, m), FormatPlaceAgain(Side(v), i)) == Bit(FormatBits(ecl, m), i)
    ensures DarkAt(Candidate(v, base, ecl, m), Cell(8, Side(v) - 8))
  {
    hide FormatBits, Bit, MaskGrid, FunctionGrid, FormatIndex, FormatGrid, DarkAt, FormatPlace, FormatPlaceAgain;
    FormatPlaces(Side(v), i);
    var n, bits, g := Side(v), FormatBits(ecl, m), MaskGrid(FunctionGrid(v), base, m);
    FormatAt(n, bits, g, FormatPlace(i));
    FormatAt(n, bits, g, FormatPlaceAgain(n, i));
    FormatAt(n, bits, g, Cell(8, n - 8));
  }

  lemma FormatAt(n: nat, bits: nat, g: Grid, c: Cell)
    requires Square(g, n) && Inside(n, c.x, c.y)
    ensures DarkAt(FormatGrid(g, bits), c) == Formatted(n, bits, c.x, c.y, At(g, c.x, c.y))
  {
    hide Formatted;
    assert At(FormatGrid(g, bits), c.x, c.y) == Formatted(n, bits, c.x, c.y, At(g, c.x, c.y));
  }

  lemma FormatPlaces(n: nat, i: nat)
    requires n >= 21 && i < 15
    ensures var c := FormatPlace(i); Inside(n, c.x, c.y) && FormatIndex(n, c.x, c.y) == i
    ensures var c := FormatPlaceAgain(n, i); Inside(n, c.x, c.y) && FormatIndex(n, c.x, c.y) == i
    ensures FormatIndex(n, 8, n - 8) == 15
  {
  }

  lemma FormatDataBits(ecl: Ecc, m: Mask)
    ensures var x := DataOf(FormatData(ecl, m));
            && (x.d4 <==> ecl == 2 || ecl == 3) && (x.d3 <==> ecl == 0 || ecl == 2)
            && (x.d2 <==> m >= 4) && (x.d1 <==> m / 2 % 2 == 1) && (x.d0 <==> m % 2 == 1)
  {
    var d := FormatData(ecl, m);
    hide Shr;
    SmallPowers();
    ShrIs(d, 0); ShrIs(d, 1); ShrIs(d, 2); ShrIs(d, 3); ShrIs(d, 4);
  }

  /**
   What the format information of a finished symbol says: two modules for the level, three for the mask.
   A level or mask read off them needs no table but this.
   */
  lemma LevelAndMaskShown(v: Version, base: Grid, ecl: Ecc, m: Mask)
    requires Square(base, Side(v))
    ensures var g := Candidate(v, base, ecl, m);
            && (At(g, 0, 8) <==> ecl == 0 || ecl == 1) && (At(g, 1, 8) <==> ecl == 0 || ecl == 2)
            && (At(g, 2, 8) <==> m < 4) && (At(g, 3, 8) <==> m / 2 % 2 == 1) && (At(g, 4, 8) <==> m % 2 == 0)
  {
    hide Candidate, FormatBits, FormatData, Bit, DataOf, FormatParity;
    FormatReadable(v, base, ecl, m, 10);
    FormatReadable(v, base, ecl, m, 11);
    FormatReadable(v, base, ecl, m, 12);
    FormatReadable(v, base, ecl, m, 13);
    FormatReadable(v, base, ecl, m, 14);
    FormatBitIs(ecl, m, 10);
    FormatBitIs(ecl, m, 11);
    FormatBitIs(ecl, m, 12);
    FormatBitIs(ecl, m, 13);
    FormatBitIs(ecl, m, 14);
    FormatDataBits(ecl, m);
  }
}
