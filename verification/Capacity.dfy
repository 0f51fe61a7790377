/** The number of data modules: a count of the function modules as disjoint products of coordinate sets. */
module Capacity {
  import opened Arithmetic
  import opened Symbol
  import opened Tables
  import opened FunctionModules
  import opened Zigzag

  function Interval(lo: int, hi: int): (s: set<int>)
    ensures forall i :: i in s <==> lo <= i < hi
    decreases hi - lo
  {
    if lo >= hi then {} else Interval(lo, hi - 1) + {hi - 1}
  }

  function Product(xs: set<int>, ys: set<int>): set<Cell> {
    set x, y | x in xs && y in ys :: Cell(x, y)
  }

  lemma {:induction false} IntervalSize(lo: int, hi: int)
    requires lo <= hi
    ensures |Interval(lo, hi)| == hi - lo
    decreases hi - lo
  {
    if lo < hi {
      IntervalSize(lo, hi - 1);
      var s := Interval(lo, hi - 1);
      assert hi - 1 !in s;
      assert Interval(lo, hi) == s + {hi - 1};
    }
  }

  lemma LineSplit(x: int, ys: set<int>, y: int)
    requires y in ys
    ensures |Product({x}, ys)| == |Product({x}, ys - {y})| + 1
  {
    var rest := Product({x}, ys - {y});
    assert Product({x}, ys) == rest + {Cell(x, y)};
    assert Cell(x, y) !in rest;
  }

  lemma {:induction false} LineSize(x: int, ys: set<int>)
    ensures |Product({x}, ys)| == |ys|
  {
    if y: int :| y in ys {
      hide Product;
      LineSize(x, ys - {y});
      LineSplit(x, ys, y);
    } else {
      assert forall y | y in ys :: false;
      assert ys == {};
      assert Product({x}, ys) == {};
    }
  }

  lemma ProductSplit(xs: set<int>, ys: set<int>, x: int)
    requires x in xs
    ensures |Product(xs, ys)| == |Product(xs - {x}, ys)| + |Product({x}, ys)|
  {
    assert Product(xs, ys) == Product(xs - {x}, ys) + Product({x}, ys);
    assert Product(xs - {x}, ys) !! Product({x}, ys);
  }

  lemma {:induction false} ProductSize(xs: set<int>, ys: set<int>)
    ensures |Product(xs, ys)| == |xs| * |ys|
  {
    if x: int :| x in xs {
      hide Product;
      ProductSize(xs - {x}, ys);
      LineSize(x, ys);
      ProductSplit(xs, ys, x);
      NextMultiple(|xs| - 1, |ys|);
    } else {
      assert forall x | x in xs :: false;
      assert xs == {};
      assert Product(xs, ys) == {};
    }
  }

  /** The coordinates near one of the alignment positions lo, ..., hi - 1. */
  function NearBetween(v: Version, lo: int, hi: int): set<int> {
    set x | 0 <= x < Side(v) && lo <= Near(v, x) < hi
  }

  lemma NearOne(v: Version, a: nat)
    requires a < NumAlign(v)
    ensures |NearBetween(v, a, a + 1)| == 5
  {
    hide Near, AlignPos;
    var p := AlignPos(v, a);
    AlignShape(v, a);
    var five := Interval(p - 2, p + 3);
    IntervalSize(p - 2, p + 3);
    forall x
      ensures x in NearBetween(v, a, a + 1) <==> x in five
    {
      NearIs(v, x, a);
    }
    assert NearBetween(v, a, a + 1) == five;
  }

  lemma {:induction false} NearBetweenSize(v: Version, lo: int, hi: int)
    requires 0 <= lo <= hi <= NumAlign(v)
    ensures |NearBetween(v, lo, hi)| == 5 * (hi - lo)
    decreases hi - lo
  {
    hide Near;
    if lo == hi {
      assert forall x | x in NearBetween(v, lo, hi) :: false;
      assert NearBetween(v, lo, hi) == {};
    } else {
      NearBetweenSize(v, lo, hi - 1);
      NearOne(v, hi - 1);
      assert NearBetween(v, lo, hi) == NearBetween(v, lo, hi - 1) + NearBetween(v, hi - 1, hi);
      assert NearBetween(v, lo, hi - 1) !! NearBetween(v, hi - 1, hi);
    }
  }

  // ----- The pieces

  /** Which of nine disjoint pieces of the function modules a module belongs to; 0 for a data module. */
  function Piece(v: Version, x: int, y: int): int {
    var n, k, a, b := Side(v), NumAlign(v), Near(v, x), Near(v, y);
    if y < 9 && (x < 9 || x >= n - 8) then 1
    else if x < 9 && y >= n - 8 then 2
    else if y == 6 then 3
    else if x == 6 then 4
    else if a >= 1 && b >= 1 then 5
    else if 1 <= a < k - 1 && y in {4, 5, 7, 8} then 6
    else if 1 <= b < k - 1 && x in {4, 5, 7, 8} then 7
    else if v >= 7 && n - 11 <= x < n - 8 && y < 6 then 8
    else if v >= 7 && n - 11 <= y < n - 8 && x < 6 then 9
    else 0
  }

  lemma NearZero(v: Version, x: int)
    ensures Near(v, x) == 0 ==> 4 <= x <= 8
    ensures v >= 2 && 4 <= x <= 8 ==> Near(v, x) == 0
    ensures Near(v, x) >= 1 ==> x >= 16
    ensures 1 <= Near(v, x) < NumAlign(v) - 1 ==> x <= Side(v) - 17
  {
    hide Near;
    var a := Near(v, x);
    if v >= 2 { NearIs(v, x, 0); }
    if a >= 1 {
      NearIs(v, x, a);
      AlignShape(v, a);
      if a + 1 < NumAlign(v) { AlignShape(v, a + 1); }
    }
  }

  lemma PieceIsFunction(v: Version, x: int, y: int)
    requires Inside(Side(v), x, y)
    ensures Piece(v, x, y) > 0 <==> IsFunction(v, x, y)
  {
    NearZero(v, x);
    NearZero(v, y);
    hide Near;
  }

  /** The modules of a symbol in the given piece. */
  function PieceCells(v: Version, p: int): set<Cell> {
    set x, y | x in Interval(0, Side(v)) && y in Interval(0, Side(v)) && Piece(v, x, y) == p :: Cell(x, y)
  }

  /** The factors of each piece. */
  function PieceColumns(v: Version, p: int): set<int> {
    var n, k := Side(v), NumAlign(v);
    match p
    case 1 => Interval(0, 9) + Interval(n - 8, n)
    case 2 => Interval(0, 9)
    case 3 => Interval(9, n - 8)
    case 4 => {6}
    case 5 => NearBetween(v, 1, k)
    case 6 => NearBetween(v, 1, k - 1)
    case 7 => {4, 5, 7, 8}
    case 8 => if v >= 7 then Interval(n - 11, n - 8) else {}
    case _ => if v >= 7 then Interval(0, 6) else {}
  }

  function PieceRows(v: Version, p: int): set<int> {
    if p == 1 then Interval(0, 9)
    else if p == 2 then Interval(Side(v) - 8, Side(v))
    else if p == 3 then PieceColumns(v, 4)
    else if p == 4 then PieceColumns(v, 3)
    else if p == 5 then PieceColumns(v, 5)
    else if p == 6 then PieceColumns(v, 7)
    else if p == 7 then PieceColumns(v, 6)
    else if p == 8 then PieceColumns(v, 9)
    else PieceColumns(v, 8)
  }

  lemma FinderFactors(v: Version, p: int, x: int, y: int)
    requires 1 <= p <= 4
    ensures Inside(Side(v), x, y) && Piece(v, x, y) == p <==> x in PieceColumns(v, p) && y in PieceRows(v, p)
  {
    hide Near;
  }

  lemma AlignmentFactors(v: Version, p: int, x: int, y: int)
    requires 5 <= p <= 7
    ensures Inside(Side(v), x, y) && Piece(v, x, y) == p <==> x in PieceColumns(v, p) && y in PieceRows(v, p)
  {
    hide Near, Interval;
    NearZero(v, x);
    NearZero(v, y);
  }

  lemma VersionFactors(v: Version, p: int, x: int, y: int)
    requires 8 <= p <= 9
    ensures Inside(Side(v), x, y) && Piece(v, x, y) == p <==> x in PieceColumns(v, p) && y in PieceRows(v, p)
  {
    hide Near;
    NearZero(v, x);
    NearZero(v, y);
  }

  lemma PieceIsProduct(v: Version, p: int)
    requires 1 <= p <= 9
    ensures PieceCells(v, p) == Product(PieceColumns(v, p), PieceRows(v, p))
  {
    forall x, y
      ensures Cell(x, y) in PieceCells(v, p) <==> Cell(x, y) in Product(PieceColumns(v, p), PieceRows(v, p))
    {
      hide Piece, PieceColumns, PieceRows;
      if p <= 4 {
        FinderFactors(v, p, x, y);
      } else if p <= 7 {
        AlignmentFactors(v, p, x, y);
      } else {
        VersionFactors(v, p, x, y);
      }
    }
  }

  /** The size of each piece. */
  function PieceSize(v: Version, p: int): int {
    var n, k := Side(v), NumAlign(v);
    match p
    case 1 => 153
    case 2 => 72
    case 3 => n - 17
    case 4 => n - 17
    case 5 => if v == 1 then 0 else 25 * (k - 1) * (k - 1)
    case 6 => if v == 1 then 0 else 20 * (k - 2)
    case 7 => if v == 1 then 0 else 20 * (k - 2)
    case _ => if v >= 7 then 18 else 0
  }

  lemma NoAlignment(v: Version, lo: int, hi: int)
    requires v == 1 && 1 <= lo
    ensures |NearBetween(v, lo, hi)| == 0
  {
    assert forall x | x in NearBetween(v, lo, hi) :: false;
    assert NearBetween(v, lo, hi) == {};
  }

  lemma FinderColumns(n: nat)
    requires n >= 21
    ensures |Interval(0, 9) + Interval(n - 8, n)| == 17
  {
    IntervalSize(0, 9);
    IntervalSize(n - 8, n);
    hide Interval;
    assert Interval(0, 9) !! Interval(n - 8, n);
  }

  lemma AlignmentSizes(v: Version)
    ensures |PieceColumns(v, 5)| == (if v == 1 then 0 else 5 * (NumAlign(v) - 1))
    ensures |PieceColumns(v, 6)| == (if v == 1 then 0 else 5 * (NumAlign(v) - 2))
  {
    hide NearBetween;
    if v == 1 {
      NoAlignment(v, 1, NumAlign(v));
      NoAlignment(v, 1, NumAlign(v) - 1);
    } else {
      NearBetweenSize(v, 1, NumAlign(v));
      NearBetweenSize(v, 1, NumAlign(v) - 1);
    }
  }

  lemma SideAtLeast(v: Version)
    ensures Side(v) >= 21
  {
  }

  lemma CornerFactors(v: Version)
    ensures PieceColumns(v, 1) == Interval(0, 9) + Interval(Side(v) - 8, Side(v)) && PieceRows(v, 1) == Interval(0, 9)
    ensures PieceColumns(v, 2) == Interval(0, 9) && PieceRows(v, 2) == Interval(Side(v) - 8, Side(v))
  {
    hide Interval;
  }

  lemma TimingFactors(v: Version)
    ensures PieceColumns(v, 3) == Interval(9, Side(v) - 8) && PieceRows(v, 3) == {6}
    ensures PieceColumns(v, 4) == {6} && PieceRows(v, 4) == Interval(9, Side(v) - 8)
  {
    hide Interval;
  }

  lemma FinderSizes(v: Version, p: int)
    requires 1 <= p <= 4
    ensures |PieceColumns(v, p)| == if p == 1 then 17 else if p == 2 then 9 else if p == 3 then Side(v) - 17 else 1
    ensures |PieceRows(v, p)| == if p == 1 then 9 else if p == 2 then 8 else if p == 3 then 1 else Side(v) - 17
  {
    hide *;
    SideAtLeast(v);
    if p <= 2 {
      CornerFactors(v);
      FinderColumns(Side(v));
      IntervalSize(0, 9);
      IntervalSize(Side(v) - 8, Side(v));
    } else {
      TimingFactors(v);
      IntervalSize(9, Side(v) - 8);
      OneColumn();
    }
  }

  lemma FinderProducts(v: Version, p: int)
    requires 1 <= p <= 4
    ensures |PieceColumns(v, p)| * |PieceRows(v, p)| == PieceSize(v, p)
  {
    hide PieceColumns, PieceRows;
    FinderSizes(v, p);
  }

  lemma OneColumn()
    ensures |{6}| == 1
  {
  }

  lemma FourSize()
    ensures |{4, 5, 7, 8}| == 4
  {
  }

  lemma AlignmentProducts(v: Version, p: int)
    requires 5 <= p <= 7
    ensures |PieceColumns(v, p)| * |PieceRows(v, p)| == PieceSize(v, p)
  {
    AlignmentSizes(v);
    FourSize();
    hide NearBetween, Interval, NumAlign, Side;
    var j: int := NumAlign(v) - 1;
    SquareOfFives(j);
    assert PieceColumns(v, 7) == {4, 5, 7, 8};
    if p == 5 {
      assert PieceRows(v, p) == PieceColumns(v, 5);
    } else if p == 6 {
      assert PieceRows(v, p) == PieceColumns(v, 7);
    } else {
      assert PieceRows(v, p) == PieceColumns(v, 6);
    }
  }

  lemma SquareOfFives(j: int)
    ensures 5 * j * (5 * j) == 25 * j * j
  {
  }

  lemma VersionProducts(v: Version, p: int)
    requires 8 <= p <= 9
    ensures |PieceColumns(v, p)| * |PieceRows(v, p)| == PieceSize(v, p)
  {
    hide Interval, NearBetween, NumAlign, Side;
    IntervalSize(Side(v) - 11, Side(v) - 8);
    IntervalSize(0, 6);
    if v >= 7 {
      assert PieceColumns(v, 8) == Interval(Side(v) - 11, Side(v) - 8) && PieceColumns(v, 9) == Interval(0, 6);
    } else {
      assert PieceColumns(v, 8) == {} && PieceColumns(v, 9) == {};
    }
  }

  lemma PieceCellsSize(v: Version, p: int)
    requires 1 <= p <= 9
    ensures |PieceCells(v, p)| == PieceSize(v, p)
  {
    hide *;
    PieceIsProduct(v, p);
    ProductSize(PieceColumns(v, p), PieceRows(v, p));
    if p <= 4 {
      FinderProducts(v, p);
    } else if p <= 7 {
      AlignmentProducts(v, p);
    } else {
      VersionProducts(v, p);
    }
  }

  /** The modules of a symbol in the pieces from p up to 9. */
  function PiecesFrom(v: Version, p: int): set<Cell> {
    set x, y | x in Interval(0, Side(v)) && y in Interval(0, Side(v)) && p <= Piece(v, x, y) <= 9 :: Cell(x, y)
  }

  function SizesFrom(v: Version, p: int): int
    decreases 10 - p
  {
    if p > 9 then 0 else PieceSize(v, p) + SizesFrom(v, p + 1)
  }

  lemma {:induction false} PiecesFromSize(v: Version, p: int)
    requires 1 <= p <= 10
    ensures |PiecesFrom(v, p)| == SizesFrom(v, p)
    decreases 10 - p
  {
    hide Piece, PieceSize, Interval;
    if p == 10 {
      assert forall c | c in PiecesFrom(v, p) :: false;
      assert PiecesFrom(v, p) == {};
    } else {
      PiecesFromSize(v, p + 1);
      PieceCellsSize(v, p);
      assert PiecesFrom(v, p) == PieceCells(v, p) + PiecesFrom(v, p + 1);
      assert PieceCells(v, p) !! PiecesFrom(v, p + 1);
    }
  }

  lemma SizesUnfold(v: Version)
    ensures SizesFrom(v, 1) == PieceSize(v, 1) + PieceSize(v, 2) + PieceSize(v, 3) + PieceSize(v, 4)
                             + PieceSize(v, 5) + PieceSize(v, 6) + PieceSize(v, 7) + PieceSize(v, 8) + PieceSize(v, 9)
  {
    hide PieceSize;
    assert SizesFrom(v, 9) == PieceSize(v, 9) + SizesFrom(v, 10);
    assert SizesFrom(v, 7) == PieceSize(v, 7) + SizesFrom(v, 8);
    assert SizesFrom(v, 5) == PieceSize(v, 5) + SizesFrom(v, 6);
    assert SizesFrom(v, 3) == PieceSize(v, 3) + SizesFrom(v, 4);
  }

  lemma SizesSum(v: Version)
    ensures SizesFrom(v, 1) == Side(v) * Side(v) - NumRawDataModules(v)
  {
    hide SizesFrom;
    SizesUnfold(v);
    var k := v / 7 + 2;
    assert 25 * (k - 1) * (k - 1) + 40 * (k - 2) == (25 * k - 10) * k - 55;
    assert Side(v) * Side(v) == 16 * v * v + 136 * v + 289;
    assert (16 * v + 128) * v == 16 * v * v + 128 * v;
  }

  // ----- The capacity of the walk

  function Members(p: seq<Cell>): set<Cell> {
    set c | c in p
  }

  lemma {:induction false} DistinctSize(p: seq<Cell>)
    requires Distinct(p)
    ensures |Members(p)| == |p|
  {
    if p == [] {
      assert Members(p) == {};
    } else {
      var k := |p| - 1;
      DistinctSize(p[..k]);
      assert p == p[..k] + [p[k]];
      assert Members(p) == Members(p[..k]) + {p[k]};
    }
  }

  lemma DataCellsAre(v: Version, c: Cell)
    ensures c in LightCells(FunctionGrid(v), Path(Side(v)))
       <==> Inside(Side(v), c.x, c.y) && Piece(v, c.x, c.y) == 0
  {
    hide Piece, Path, LightCells;
    var n, f := Side(v), FunctionGrid(v);
    PathVisitsAllOnce(n);
    LightCellsMembers(f, Path(n));
    assert c == Cell(c.x, c.y);
    if Inside(n, c.x, c.y) {
      PieceIsFunction(v, c.x, c.y);
      PieceNonNegative(v, c.x, c.y);
      assert At(f, c.x, c.y) == IsFunction(v, c.x, c.y) == DarkAt(f, c);
    }
  }

  lemma PieceNonNegative(v: Version, x: int, y: int)
    ensures 0 <= Piece(v, x, y) <= 9
  {
    hide Near;
  }

  /**
   The walk over the marked function modules of version v meets as many unmarked modules
   as the closed formula says.
   */
  lemma CapacityFormula(v: Version)
    ensures |LightCells(FunctionGrid(v), Path(Side(v)))| == NumRawDataModules(v)
  {
    hide Piece, Path, LightCells, FunctionGrid, NumRawDataModules, SizesFrom, Interval;
    var n, p := Side(v), LightCells(FunctionGrid(v), Path(Side(v)));
    PathVisitsAllOnce(n);
    LightCellsMembers(FunctionGrid(v), Path(n));
    DistinctSize(p);
    SizesSum(v);
    PiecesFromSize(v, 1);
    SquareSize(n);
    var all, marked := Product(Interval(0, n), Interval(0, n)), PiecesFrom(v, 1);
    forall c: Cell
      ensures c in Members(p) <==> c in all && c !in marked
      ensures c in marked ==> c in all
    {
      DataCellsAre(v, c);
      PieceNonNegative(v, c.x, c.y);
      assert c == Cell(c.x, c.y);
    }
    DifferenceSize(all, marked, Members(p));
  }

  lemma SquareSize(n: nat)
    ensures |Product(Interval(0, n), Interval(0, n))| == n * n
  {
    hide *;
    ProductSize(Interval(0, n), Interval(0, n));
    IntervalSize(0, n);
  }

  lemma DifferenceSize(all: set<Cell>, marked: set<Cell>, rest: set<Cell>)
    requires forall c :: c in rest <==> c in all && c !in marked
    requires forall c :: c in marked ==> c in all
    ensures |rest| == |all| - |marked|
  {
    assert rest == all - marked;
    assert all == marked + rest;
  }
}
