/** Placement of the codewords: the zigzag walk over column pairs. */
module Zigzag {
  import opened Bitwise
  import opened BitStream
  import opened Symbol

  // ----- The walk

  /** The right column of the c-th pair; the pairs skip column 6. */
  function Right(n: nat, c: nat): int {
    var r := n - 1 - 2 * c;
    if r <= 6 then r - 1 else r
  }

  function CellAt(n: nat, c: nat, s: nat): Cell {
    var right := Right(n, c);
    Cell(right - s % 2, if (right + 1) / 2 % 2 == 0 then n - 1 - s / 2 else s / 2)
  }

  /** The first s cells of the c-th pair of columns. */
  function Column(n: nat, c: nat, s: nat): (p: seq<Cell>)
    ensures |p| == s && forall k | 0 <= k < s :: p[k] == CellAt(n, c, k)
  {
    seq(s, k requires 0 <= k < s => CellAt(n, c, k))
  }

  function Columns(n: nat, c: nat): seq<Cell> {
    if c == 0 then [] else Columns(n, c - 1) + Column(n, c - 1, 2 * n)
  }

  function Path(n: nat): seq<Cell> {
    Columns(n, n / 2)
  }

  predicate Distinct(p: seq<Cell>) {
    forall i, j | 0 <= i < j < |p| :: p[i] != p[j]
  }

  predicate AllInside(n: nat, p: seq<Cell>) {
    forall i | 0 <= i < |p| :: Inside(n, p[i].x, p[i].y)
  }

  lemma ColumnCells(n: nat, c: nat, s: nat)
    requires n % 2 == 1 && n >= 9 && c < n / 2 && s <= 2 * n
    ensures Distinct(Column(n, c, s))
    ensures forall k | 0 <= k < s ::
              && Inside(n, CellAt(n, c, k).x, CellAt(n, c, k).y)
              && Right(n, c + 1) < CellAt(n, c, k).x <= Right(n, c) && CellAt(n, c, k).x != 6
  {
  }

  /** Every cell of a pair of columns has its turn in the walk. */
  lemma ColumnComplete(n: nat, c: nat, x: int, y: int)
    requires n % 2 == 1 && n >= 9 && c < n / 2
    requires Inside(n, x, y) && Right(n, c + 1) < x <= Right(n, c) && x != 6
    ensures Cell(x, y) in Column(n, c, 2 * n)
  {
    var right := Right(n, c);
    var s := 2 * (if (right + 1) / 2 % 2 == 0 then n - 1 - y else y) + (right - x);
    assert Column(n, c, 2 * n)[s] == Cell(x, y);
  }

  lemma {:induction false} ColumnsCells(n: nat, c: nat)
    requires n % 2 == 1 && n >= 9 && c <= n / 2
    ensures Distinct(Columns(n, c)) && AllInside(n, Columns(n, c))
    ensures forall x, y :: Cell(x, y) in Columns(n, c) <==> Inside(n, x, y) && x != 6 && x > Right(n, c)
  {
    hide CellAt;
    if c == 0 {
    } else {
      ColumnsCells(n, c - 1);
      ColumnCells(n, c - 1, 2 * n);
      var p, q := Columns(n, c - 1), Column(n, c - 1, 2 * n);
      forall i, j | 0 <= i < j < |p + q|
        ensures (p + q)[i] != (p + q)[j]
      {
        if i < |p| <= j {
          var a, b := p[i], q[j - |p|];
          assert Cell(a.x, a.y) in p;
        }
      }
      forall x, y
        ensures Cell(x, y) in p + q <==> Inside(n, x, y) && x != 6 && x > Right(n, c)
      {
        if Inside(n, x, y) && x != 6 && Right(n, c) < x <= Right(n, c - 1) { ColumnComplete(n, c - 1, x, y); }
      }
    }
  }

  /** The walk visits every module outside column 6 exactly once. */
  lemma PathVisitsAllOnce(n: nat)
    requires n % 2 == 1 && n >= 9
    ensures Distinct(Path(n)) && AllInside(n, Path(n))
    ensures forall x, y :: Cell(x, y) in Path(n) <==> Inside(n, x, y) && x != 6
  {
    ColumnsCells(n, n / 2);
  }

  // ----- The shape of the walk

  /** Within a pair of columns the walk takes both modules of a row, the right one first, and then the next row. */
  lemma WalkSteps(n: nat, c: nat, s: nat)
    requires n % 2 == 1 && n >= 9 && c < n / 2 && s < n
    ensures var a, b := CellAt(n, c, 2 * s), CellAt(n, c, 2 * s + 1);
            b == Cell(a.x - 1, a.y)
    ensures s + 1 < n ==>
              var a, d := CellAt(n, c, 2 * s), CellAt(n, c, 2 * s + 2);
              d.x == a.x && (d.y == a.y + 1 || d.y == a.y - 1)
  {
    assert (2 * s) / 2 == s && (2 * s + 1) / 2 == s && (2 * s + 2) / 2 == s + 1;
    assert (2 * s) % 2 == 0 && (2 * s + 1) % 2 == 1 && (2 * s + 2) % 2 == 0;
  }

  /** Every pair of columns lies to the left of the one before it and begins in the row where that ended. */
  lemma WalkTurns(n: nat, c: nat)
    requires n % 2 == 1 && n >= 9 && c + 1 < n / 2
    ensures var last, first := CellAt(n, c, 2 * n - 1), CellAt(n, c + 1, 0);
            first.y == last.y && last.x - 2 <= first.x < last.x
  {
    assert (2 * n - 1) / 2 == n - 1 && (2 * n - 1) % 2 == 1;
  }

  /** The walk through a symbol begins in its bottom right corner and goes up. */
  lemma WalkBegins(n: nat)
    requires n % 4 == 1 && n >= 9
    ensures Path(n) != [] && Path(n)[0] == Cell(n - 1, n - 1)
    ensures CellAt(n, 0, 2) == Cell(n - 1, n - 2)
  {
    ColumnsPrefix(n, 1, n / 2);
    assert Columns(n, 1) == Columns(n, 0) + Column(n, 0, 2 * n);
    assert Columns(n, 1)[0] == CellAt(n, 0, 0);
  }

  // ----- What the walk writes

  /** The cells of a walk that are light in f. */
  function LightCells(f: Grid, p: seq<Cell>): seq<Cell> {
    if p == [] then []
    else
      var k := |p| - 1;
      LightCells(f, p[..k]) + if DarkAt(f, p[k]) then [] else [p[k]]
  }

  /** The grid with the bits put on the first cells. */
  function Place(g: Grid, cells: seq<Cell>, bits: Bits): Grid
    requires |bits| <= |cells|
  {
    if bits == [] then g
    else
      var k := |bits| - 1;
      PutAt(Place(g, cells, bits[..k]), cells[k], bits[k])
  }

  function Read(g: Grid, cells: seq<Cell>): (s: Bits)
    ensures |s| == |cells| && forall k | 0 <= k < |s| :: s[k] == DarkAt(g, cells[k])
  {
    seq(|cells|, k requires 0 <= k < |cells| => DarkAt(g, cells[k]))
  }

  lemma {:induction false} PlaceSquare(g: Grid, n: nat, cells: seq<Cell>, bits: Bits)
    requires Square(g, n) && |bits| <= |cells| && AllInside(n, cells)
    ensures Square(Place(g, cells, bits), n)
  {
    hide PutAt, Square;
    if bits != [] {
      var k := |bits| - 1;
      PlaceSquare(g, n, cells, bits[..k]);
      PutAtMeaning(Place(g, cells, bits[..k]), n, cells[k], bits[k], cells[k]);
    }
  }

  lemma {:induction false} PlaceElsewhere(g: Grid, n: nat, cells: seq<Cell>, bits: Bits, c: Cell)
    requires Square(g, n) && |bits| <= |cells| && AllInside(n, cells)
    requires c !in cells[..|bits|]
    ensures DarkAt(Place(g, cells, bits), c) == DarkAt(g, c)
  {
    hide PutAt, Square, DarkAt;
    if bits != [] {
      var k := |bits| - 1;
      assert cells[..k + 1] == cells[..k] + [cells[k]];
      PlaceSquare(g, n, cells, bits[..k]);
      PlaceElsewhere(g, n, cells, bits[..k], c);
      PutAtMeaning(Place(g, cells, bits[..k]), n, cells[k], bits[k], c);
    }
  }

  lemma {:induction false} PlaceAt(g: Grid, n: nat, cells: seq<Cell>, bits: Bits, k: nat)
    requires Square(g, n) && |bits| <= |cells| && AllInside(n, cells) && Distinct(cells) && k < |cells|
    ensures DarkAt(Place(g, cells, bits), cells[k]) == if k < |bits| then bits[k] else DarkAt(g, cells[k])
  {
    hide PutAt, Square, DarkAt;
    if k >= |bits| {
      PlaceElsewhere(g, n, cells, bits, cells[k]);
    } else {
      var m := |bits| - 1;
      PlaceSquare(g, n, cells, bits[..m]);
      PutAtMeaning(Place(g, cells, bits[..m]), n, cells[m], bits[m], cells[k]);
      if k < m { PlaceAt(g, n, cells, bits[..m], k); }
    }
  }

  /** Reading the cells back gives the bits, followed by what the grid had there before. */
  lemma ReadPlace(g: Grid, n: nat, cells: seq<Cell>, bits: Bits)
    requires Square(g, n) && |bits| <= |cells| && AllInside(n, cells) && Distinct(cells)
    ensures Read(Place(g, cells, bits), cells) == bits + Read(g, cells)[|bits|..]
  {
    hide Place, DarkAt;
    forall k | 0 <= k < |cells|
      ensures Read(Place(g, cells, bits), cells)[k] == (bits + Read(g, cells)[|bits|..])[k]
    {
      PlaceAt(g, n, cells, bits, k);
    }
  }

  lemma LightCellsLast(f: Grid, p: seq<Cell>, c: Cell)
    ensures LightCells(f, p + [c]) == LightCells(f, p) + if DarkAt(f, c) then [] else [c]
  {
    assert (p + [c])[..|p|] == p;
  }

  lemma {:induction false} LightCellsMembers(f: Grid, p: seq<Cell>)
    ensures forall c :: c in LightCells(f, p) <==> c in p && !DarkAt(f, c)
    ensures Distinct(p) ==> Distinct(LightCells(f, p))
  {
    if p != [] {
      hide DarkAt;
      var k := |p| - 1;
      LightCellsMembers(f, p[..k]);
      assert p == p[..k] + [p[k]];
    }
  }

  lemma {:induction false} LightCellsSplit(f: Grid, p: seq<Cell>, q: seq<Cell>)
    ensures LightCells(f, p + q) == LightCells(f, p) + LightCells(f, q)
  {
    if q == [] {
      assert p + q == p;
    } else {
      hide LightCells, DarkAt;
      var k := |q| - 1;
      LightCellsSplit(f, p, q[..k]);
      LastJoins(p, q);
      LightCellsLast(f, p + q[..k], q[k]);
      LightCellsLast(f, q[..k], q[k]);
      var last := if DarkAt(f, q[k]) then [] else [q[k]];
      JoinAssociates(LightCells(f, p), LightCells(f, q[..k]), last);
    }
  }

  lemma LastJoins(p: seq<Cell>, q: seq<Cell>)
    requires q != []
    ensures p + q == (p + q[..|q| - 1]) + [q[|q| - 1]] && q == q[..|q| - 1] + [q[|q| - 1]]
  {
  }

  lemma JoinAssociates(p: seq<Cell>, q: seq<Cell>, r: seq<Cell>)
    ensures (p + q) + r == p + (q + r)
  {
  }

  // ----- Drawing the codewords

  /** What is drawn once the walk has done p and used i of the bits. */
  ghost predicate Walked(g: Grid, h: Grid, cells: seq<Cell>, p: seq<Cell>, bits: Bits, i: nat) {
    && i <= |bits| <= |cells|
    && LightCells(g, p) <= cells
    && i == (if |LightCells(g, p)| < |bits| then |LightCells(g, p)| else |bits|)
    && h == Place(g, cells, bits[..i])
  }

  /** The test for a light module finds exactly the cells that were light before drawing began. */
  lemma WalkedTest(g: Grid, n: nat, h: Grid, cells: seq<Cell>, p: seq<Cell>, bits: Bits, i: nat, c: Cell)
    requires Square(g, n) && AllInside(n, cells) && c !in p && Walked(g, h, cells, p, bits, i)
    ensures DarkAt(h, c) == DarkAt(g, c)
  {
    hide Place, LightCells, DarkAt;
    var q := LightCells(g, p);
    LightCellsMembers(g, p);
    assert cells[..i] == q[..i];
    PlaceElsewhere(g, n, cells, bits[..i], c);
  }

  /** One step of the walk. */
  lemma WalkedNext(g: Grid, h: Grid, cells: seq<Cell>, p: seq<Cell>, bits: Bits, i: nat, c: Cell)
    requires LightCells(g, p + [c]) <= cells && Walked(g, h, cells, p, bits, i)
    ensures !DarkAt(g, c) && i < |bits| ==> Walked(g, PutAt(h, c, bits[i]), cells, p + [c], bits, i + 1)
    ensures DarkAt(g, c) || i == |bits| ==> Walked(g, h, cells, p + [c], bits, i)
  {
    LightCellsLast(g, p, c);
    hide PutAt, LightCells, DarkAt;
    if !DarkAt(g, c) && i < |bits| {
      assert bits[..i + 1][..i] == bits[..i];
      assert LightCells(g, p + [c])[i] == c;
    }
  }

  lemma WalkedStart(g: Grid, cells: seq<Cell>, bits: Bits)
    requires |bits| <= |cells|
    ensures Walked(g, g, cells, [], bits, 0)
  {
    assert bits[..0] == [];
  }

  lemma WalkedBound(g: Grid, h: Grid, cells: seq<Cell>, p: seq<Cell>, bits: Bits, i: nat)
    requires Walked(g, h, cells, p, bits, i)
    ensures i <= |bits| <= |cells|
  {
  }

  method GetCell(qrcode: array<byte>, c: Cell) returns (dark: bool)
    requires Valid(qrcode[..]) && Inside(qrcode[0], c.x, c.y)
    ensures dark == DarkAt(View(qrcode[..]), c)
  {
    hide View, Dark, DarkAt;
    dark := GetModule(qrcode, c.x, c.y);
    DarkAtView(qrcode[..], c);
  }

  method SetCell(qrcode: array<byte>, c: Cell, v: bool)
    requires Valid(qrcode[..]) && Inside(qrcode[0], c.x, c.y)
    modifies qrcode
    ensures Valid(qrcode[..]) && qrcode[0] == old(qrcode[0])
    ensures View(qrcode[..]) == PutAt(old(View(qrcode[..])), c, v)
  {
    hide View, Dark, PutAt;
    ghost var buf := qrcode[..];
    SetModule(qrcode, c.x, c.y, v);
    ViewPut(buf, qrcode[..], c, v);
  }

  /** Draw one module of the walk if it is light and there are bits left. */
  method DrawCell(data: array<byte>, dataLen: nat, qrcode: array<byte>, c: Cell, i: nat,
                  ghost g: Grid, ghost cells: seq<Cell>, ghost p: seq<Cell>, ghost bits: Bits)
    returns (next: nat)
    requires data != qrcode && dataLen <= data.Length && bits == Stream(data[..], 8 * dataLen)
    requires Valid(qrcode[..]) && Square(g, qrcode[0]) && AllInside(qrcode[0], cells) && Inside(qrcode[0], c.x, c.y)
    requires c !in p && LightCells(g, p + [c]) <= cells
    requires Walked(g, View(qrcode[..]), cells, p, bits, i)
    modifies qrcode
    ensures Valid(qrcode[..]) && qrcode[0] == old(qrcode[0])
    ensures Walked(g, View(qrcode[..]), cells, p + [c], bits, next)
  {
    hide View, LightCells, DarkAt, PutAt, Place, Bit, Walked, AllInside, Square, BufferLength;
    var dark := GetCell(qrcode, c);
    ghost var h := View(qrcode[..]);
    WalkedTest(g, qrcode[0], h, cells, p, bits, i, c);
    WalkedNext(g, h, cells, p, bits, i, c);
    WalkedBound(g, h, cells, p, bits, i);
    next := i;
    if !dark && i < dataLen * 8 {
      SetCell(qrcode, c, Bit(data[i / 8], 7 - i % 8));
      next := i + 1;
    }
  }

  // ----- The whole walk

  lemma {:induction false} ColumnsPrefix(n: nat, c: nat, d: nat)
    requires c <= d
    ensures Columns(n, c) <= Columns(n, d)
  {
    hide Column;
    if c < d { ColumnsPrefix(n, c, d - 1); }
  }

  lemma LightCellsPrefix(f: Grid, p: seq<Cell>, q: seq<Cell>)
    requires p <= q
    ensures LightCells(f, p) <= LightCells(f, q)
  {
    assert q == p + q[|p|..];
    LightCellsSplit(f, p, q[|p|..]);
  }

  /** The part of the walk before step s of the c-th pair of columns. */
  function Before(n: nat, c: nat, s: nat): seq<Cell> {
    Columns(n, c) + Column(n, c, s)
  }

  lemma LastIsNew(p: seq<Cell>, q: seq<Cell>)
    requires p <= q && Distinct(q) && p != []
    ensures p[|p| - 1] !in p[..|p| - 1]
  {
    forall i | 0 <= i < |p| - 1
      ensures p[i] != p[|p| - 1]
    {
      assert p[i] == q[i] && p[|p| - 1] == q[|p| - 1];
    }
  }

  lemma BeforeNext(n: nat, c: nat, s: nat, g: Grid)
    requires n % 2 == 1 && n >= 9 && c < n / 2 && s < 2 * n
    ensures Before(n, c, s + 1) == Before(n, c, s) + [CellAt(n, c, s)]
    ensures CellAt(n, c, s) !in Before(n, c, s)
    ensures Inside(n, CellAt(n, c, s).x, CellAt(n, c, s).y)
    ensures LightCells(g, Before(n, c, s) + [CellAt(n, c, s)]) <= LightCells(g, Path(n))
  {
    hide CellAt, LightCells, Columns, Distinct;
    ColumnCells(n, c, 2 * n);
    var p := Before(n, c, s + 1);
    assert p[..|p| - 1] == Before(n, c, s);
    assert p <= Columns(n, c + 1) by { ColumnsNext(n, c); }
    ColumnsPrefix(n, c + 1, n / 2);
    PathVisitsAllOnce(n);
    LastIsNew(p, Path(n));
    LightCellsPrefix(g, p, Path(n));
  }

  lemma ColumnsNext(n: nat, c: nat)
    ensures Columns(n, c + 1) == Columns(n, c) + Column(n, c, 2 * n)
    ensures Before(n, c, 0) == Columns(n, c)
  {
    hide CellAt;
  }

  /** The two modules of one row of a pair of columns. */
  method DrawRow(data: array<byte>, dataLen: nat, qrcode: array<byte>, right: int, vert: nat, i: nat,
                 ghost c: nat, ghost g: Grid, ghost bits: Bits)
    returns (next: nat)
    requires data != qrcode && dataLen <= data.Length && bits == Stream(data[..], 8 * dataLen)
    requires Valid(qrcode[..]) && qrcode[0] % 2 == 1 && Square(g, qrcode[0])
    requires c < qrcode[0] / 2 && right == Right(qrcode[0], c) && vert < qrcode[0]
    requires Walked(g, View(qrcode[..]), LightCells(g, Path(qrcode[0])), Before(qrcode[0], c, 2 * vert), bits, i)
    modifies qrcode
    ensures Valid(qrcode[..]) && qrcode[0] == old(qrcode[0])
    ensures Walked(g, View(qrcode[..]), LightCells(g, Path(qrcode[0])), Before(qrcode[0], c, 2 * vert + 2), bits, next)
  {
    hide View, LightCells, Walked, Before, Path, BufferLength, Right, Square, AllInside, CellAt;
    var n: nat := qrcode[0];
    LightInside(n, g);
    next := i;
    for j := 0 to 2
      invariant Valid(qrcode[..]) && qrcode[0] == n
      invariant Walked(g, View(qrcode[..]), LightCells(g, Path(n)), Before(n, c, 2 * vert + j), bits, next)
    {
      var x := right - j;
      var upward := (right + 1) / 2 % 2 == 0;
      var y := if upward then n - 1 - vert else vert;
      BeforeNext(n, c, 2 * vert + j, g);
      CellIs(n, c, vert, j);
      next := DrawCell(data, dataLen, qrcode, Cell(x, y), next,
                       g, LightCells(g, Path(n)), Before(n, c, 2 * vert + j), bits);
    }
  }

  lemma CellIs(n: nat, c: nat, vert: nat, j: nat)
    requires j < 2
    ensures CellAt(n, c, 2 * vert + j)
         == Cell(Right(n, c) - j, if (Right(n, c) + 1) / 2 % 2 == 0 then n - 1 - vert else vert)
  {
    hide Right;
    assert (2 * vert + j) % 2 == j && (2 * vert + j) / 2 == vert;
  }

  /** Walk one pair of columns. */
  method DrawColumn(data: array<byte>, dataLen: nat, qrcode: array<byte>, right: int, i: nat,
                    ghost c: nat, ghost g: Grid, ghost bits: Bits)
    returns (next: nat)
    requires data != qrcode && dataLen <= data.Length && bits == Stream(data[..], 8 * dataLen)
    requires Valid(qrcode[..]) && qrcode[0] % 2 == 1 && Square(g, qrcode[0])
    requires c < qrcode[0] / 2 && right == Right(qrcode[0], c)
    requires Walked(g, View(qrcode[..]), LightCells(g, Path(qrcode[0])), Columns(qrcode[0], c), bits, i)
    modifies qrcode
    ensures Valid(qrcode[..]) && qrcode[0] == old(qrcode[0])
    ensures Walked(g, View(qrcode[..]), LightCells(g, Path(qrcode[0])), Columns(qrcode[0], c + 1), bits, next)
  {
    hide View, LightCells, Walked, Before, Columns, Path, BufferLength, Column, Right, Square, AllInside;
    var n: nat := qrcode[0];
    BeforeEnds(n, c);
    next := i;
    for vert := 0 to n
      invariant Valid(qrcode[..]) && qrcode[0] == n
      invariant Walked(g, View(qrcode[..]), LightCells(g, Path(n)), Before(n, c, 2 * vert), bits, next)
    {
      next := DrawRow(data, dataLen, qrcode, right, vert, next, c, g, bits);
    }
  }

  lemma BeforeEnds(n: nat, c: nat)
    ensures Before(n, c, 0) == Columns(n, c)
    ensures Before(n, c, 2 * n) == Columns(n, c + 1)
  {
    hide CellAt;
  }

  lemma LightInside(n: nat, g: Grid)
    requires n % 2 == 1 && n >= 9
    ensures AllInside(n, LightCells(g, Path(n))) && Distinct(LightCells(g, Path(n)))
  {
    hide LightCells, Path;
    PathVisitsAllOnce(n);
    LightCellsMembers(g, Path(n));
    forall i | 0 <= i < |LightCells(g, Path(n))|
      ensures Inside(n, LightCells(g, Path(n))[i].x, LightCells(g, Path(n))[i].y)
    {
      var c := LightCells(g, Path(n))[i];
      assert c in LightCells(g, Path(n));
      assert Cell(c.x, c.y) in Path(n);
    }
  }

  /**
   Draw the codewords on the light modules in the order of the walk. As the final assertion of
   the source demands, there must be a module for every bit.
   */
  method DrawCodewords(data: array<byte>, dataLen: nat, qrcode: array<byte>)
    requires data != qrcode && dataLen <= data.Length
    requires Valid(qrcode[..]) && qrcode[0] % 2 == 1
    requires 8 * dataLen <= |LightCells(View(qrcode[..]), Path(qrcode[0]))|
    modifies qrcode
    ensures Valid(qrcode[..]) && qrcode[0] == old(qrcode[0])
    ensures View(qrcode[..])
         == Place(old(View(qrcode[..])), LightCells(old(View(qrcode[..])), Path(qrcode[0])),
                  Stream(data[..], 8 * dataLen))
  {
    hide View, LightCells, Walked, Path, BufferLength, Columns, Square, Place;
    var qrsize: nat := qrcode[0];
    ghost var g, bits := View(qrcode[..]), Stream(data[..], 8 * dataLen);
    ghost var cells := LightCells(g, Path(qrsize));
    ghost var c := 0;
    WalkStart(g, qrsize, bits);
    var i := 0;
    var right := qrsize - 1;
    while right >= 1
      invariant c <= qrsize / 2
      invariant right == if qrsize - 1 - 2 * c >= 6 then qrsize - 1 - 2 * c else qrsize - 2 - 2 * c
      invariant Valid(qrcode[..]) && qrcode[0] == qrsize
      invariant Walked(g, View(qrcode[..]), cells, Columns(qrsize, c), bits, i)
    {
      if right == 6 { right := 5; }
      i := DrawColumn(data, dataLen, qrcode, right, i, c, g, bits);
      c := c + 1;
      right := right - 2;
    }
    WalkEnd(g, qrsize, View(qrcode[..]), bits, i);
    assert i == dataLen * 8;
  }

  lemma WalkStart(g: Grid, n: nat, bits: Bits)
    requires |bits| <= |LightCells(g, Path(n))|
    ensures Walked(g, g, LightCells(g, Path(n)), Columns(n, 0), bits, 0)
  {
    WalkedStart(g, LightCells(g, Path(n)), bits);
  }

  lemma WalkEnd(g: Grid, n: nat, h: Grid, bits: Bits, i: nat)
    requires Walked(g, h, LightCells(g, Path(n)), Columns(n, n / 2), bits, i)
    ensures i == |bits| <= |LightCells(g, Path(n))| && h == Place(g, LightCells(g, Path(n)), bits)
  {
    hide LightCells, Place;
    assert bits[..i] == bits;
  }
}
