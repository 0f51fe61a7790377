/**
 The packed symbol: byte 0 holds the side length, and the modules follow row by row,
 eight to a byte, least significant bit first.
 */
module Symbol {
  import opened Arithmetic
  import opened Bitwise

  /** Rows of modules, dark being true: the meaning of a packed symbol. */
  type Grid = seq<seq<bool>>

  predicate Square(g: Grid, n: nat) {
    |g| == n && forall y | 0 <= y < n :: |g[y]| == n
  }

  predicate Inside(n: int, x: int, y: int) {
    0 <= x < n && 0 <= y < n
  }

  function At(g: Grid, x: int, y: int): bool
    requires Square(g, |g|) && Inside(|g|, x, y)
  {
    g[y][x]
  }

  datatype Cell = Cell(x: int, y: int)

  /** The colour of any cell of any grid: light outside. */
  predicate DarkAt(g: Grid, c: Cell) {
    0 <= c.y < |g| && 0 <= c.x < |g[c.y]| && g[c.y][c.x]
  }

  function PutAt(g: Grid, c: Cell, v: bool): Grid {
    if 0 <= c.y < |g| && 0 <= c.x < |g[c.y]| then g[c.y := g[c.y][c.x := v]] else g
  }

  lemma PutAtMeaning(g: Grid, n: nat, c: Cell, v: bool, d: Cell)
    requires Square(g, n) && Inside(n, c.x, c.y)
    ensures Square(PutAt(g, c, v), n)
    ensures DarkAt(PutAt(g, c, v), d) == if d == c then v else DarkAt(g, d)
  {
  }

  lemma GridsEqual(g: Grid, h: Grid, n: nat)
    requires Square(g, n) && Square(h, n)
    requires forall x, y | Inside(n, x, y) :: At(g, x, y) == At(h, x, y)
    ensures g == h
  {
    forall y | 0 <= y < n
      ensures g[y] == h[y]
    {
      forall x | 0 <= x < n
        ensures g[y][x] == h[y][x]
      {
        assert At(g, x, y) == At(h, x, y);
      }
    }
  }

  // ----- Indices

  function Index(n: nat, x: nat, y: nat): nat {
    y * n + x
  }

  lemma IndexBelow(n: nat, x: nat, y: nat)
    requires Inside(n, x, y)
    ensures Index(n, x, y) < n * n
  {
    RowsApart(y, n, n);
  }

  lemma IndexInjective(n: nat, x: nat, y: nat, x': nat, y': nat)
    requires Inside(n, x, y) && Inside(n, x', y') && Index(n, x, y) == Index(n, x', y')
    ensures x == x' && y == y'
  {
    if y < y' {
      RowsApart(y, y', n);
    } else if y' < y {
      RowsApart(y', y, n);
    }
  }

  /** The number of bytes a symbol of side n needs. */
  function BufferLength(n: nat): nat {
    (n * n + 7) / 8 + 1
  }

  /** The k-th module of a buffer in row-major order. */
  predicate Packed(buf: seq<byte>, k: nat)
    requires k / 8 + 1 < |buf|
  {
    Bit(buf[k / 8 + 1], k % 8)
  }

  predicate Valid(buf: seq<byte>) {
    |buf| > 0 && 21 <= buf[0] <= 177 && BufferLength(buf[0]) <= |buf|
  }

  lemma InBuffer(n: nat, x: nat, y: nat)
    requires Inside(n, x, y)
    ensures Index(n, x, y) / 8 + 1 < BufferLength(n)
  {
    IndexBelow(n, x, y);
  }

  predicate Module(buf: seq<byte>, x: nat, y: nat)
    requires Valid(buf) && Inside(buf[0], x, y)
  {
    InBuffer(buf[0], x, y);
    Packed(buf, Index(buf[0], x, y))
  }

  /** The grid that a valid buffer represents. */
  function View(buf: seq<byte>): (g: Grid)
    requires Valid(buf)
    ensures Square(g, buf[0])
    ensures forall x, y | Inside(buf[0], x, y) :: At(g, x, y) == Module(buf, x, y)
  {
    seq(buf[0], y requires 0 <= y < buf[0] => seq(buf[0], x requires 0 <= x < buf[0] => Module(buf, x, y)))
  }

  /** The colour of any coordinates: outside the symbol everything is light. */
  predicate Dark(buf: seq<byte>, x: int, y: int)
    requires Valid(buf)
  {
    Inside(buf[0], x, y) && Module(buf, x, y)
  }

  // ----- Reading and writing one module

  /** The byte with bit i set or cleared, as `|= 1 << i` and `&= (1 << i) ^ 0xFF` do it. */
  function SetBit(b: byte, i: nat, v: bool): (r: nat)
    requires i < 8
  {
    if v then Or(b, Pow2(i)) else And(b, Xor(Pow2(i), 0xFF))
  }

  lemma SetBitMeaning(b: byte, i: nat, v: bool, j: nat)
    requires i < 8 && j < 8
    ensures SetBit(b, i, v) < 256
    ensures Bit(SetBit(b, i, v), j) == if j == i then v else Bit(b, j)
  {
    hide Or, And, Xor, Bit;
    Pow2Small(i);
    assert Pow2(8) == 256;
    Bounded(Pow2(i), 0xFF, 8);
    Bounded(b, Pow2(i), 8);
    Bounded(b, Xor(Pow2(i), 0xFF), 8);
    OrBit(b, Pow2(i), j);
    AndBit(b, Xor(Pow2(i), 0xFF), j);
    XorBit(Pow2(i), 0xFF, j);
    Pow2Bit(i, j);
    OnesBit(8, j);
  }

  lemma Pow2Small(i: nat)
    requires i < 8
    ensures Pow2(i) < 256
    decreases 8 - i
  {
    if i < 7 { Pow2Small(i + 1); } else { assert Pow2(7) == 128; }
  }

  lemma {:induction false} OnesBit(k: nat, j: nat)
    requires j < k
    ensures Bit(Pow2(k) - 1, j)
  {
    assert (Pow2(k) - 1) / 2 == Pow2(k - 1) - 1;
    if j > 0 { OnesBit(k - 1, j - 1); }
  }

  /** The buffer after the assignment that sets module k to v. */
  function Updated(buf: seq<byte>, k: nat, v: bool): (buf': seq<byte>)
    requires k / 8 + 1 < |buf|
    ensures |buf'| == |buf|
  {
    SetBitMeaning(buf[k / 8 + 1], k % 8, v, 0);
    buf[k / 8 + 1 := SetBit(buf[k / 8 + 1], k % 8, v)]
  }

  lemma PackedUpdate(buf: seq<byte>, k: nat, v: bool, j: nat)
    requires k / 8 + 1 < |buf| && j / 8 + 1 < |buf|
    ensures Packed(Updated(buf, k, v), j) == if j == k then v else Packed(buf, j)
  {
    hide SetBit, Bit;
    SetBitMeaning(buf[k / 8 + 1], k % 8, v, j % 8);
  }

  lemma DarkUpdate(buf: seq<byte>, x: nat, y: nat, k: nat, v: bool, x': int, y': int)
    requires Valid(buf) && Inside(buf[0], x, y) && k == Index(buf[0], x, y) && k / 8 + 1 < |buf|
    ensures Valid(Updated(buf, k, v)) && Updated(buf, k, v)[0] == buf[0]
    ensures Dark(Updated(buf, k, v), x', y') == if x' == x && y' == y then v else Dark(buf, x', y')
  {
    hide SetBit, Packed, Index;
    var n := buf[0];
    if Inside(n, x', y') {
      InBuffer(n, x', y');
      PackedUpdate(buf, k, v, Index(n, x', y'));
      if Index(n, x', y') == k { IndexInjective(n, x, y, x', y'); }
    }
  }

  lemma DarkAtView(buf: seq<byte>, c: Cell)
    requires Valid(buf)
    ensures DarkAt(View(buf), c) == Dark(buf, c.x, c.y)
  {
    hide Module;
    if Inside(buf[0], c.x, c.y) { assert At(View(buf), c.x, c.y) == Module(buf, c.x, c.y); }
  }

  /** Grids of the same side that agree on every cell are equal. */
  lemma CellsEqual(g: Grid, h: Grid, n: nat)
    requires Square(g, n) && Square(h, n) && forall c :: DarkAt(g, c) == DarkAt(h, c)
    ensures g == h
  {
    forall x, y | Inside(n, x, y)
      ensures At(g, x, y) == At(h, x, y)
    {
      assert DarkAt(g, Cell(x, y)) == DarkAt(h, Cell(x, y));
    }
    GridsEqual(g, h, n);
  }

  /** A buffer that differs in one module represents the grid with that module put. */
  lemma ViewPut(buf: seq<byte>, buf': seq<byte>, c: Cell, v: bool)
    requires Valid(buf) && Valid(buf') && buf[0] == buf'[0] && Inside(buf[0], c.x, c.y)
    requires forall x', y' :: Dark(buf', x', y') == if x' == c.x && y' == c.y then v else Dark(buf, x', y')
    ensures View(buf') == PutAt(View(buf), c, v)
  {
    hide PutAt, View, Module, DarkAt, Dark;
    forall d
      ensures DarkAt(View(buf'), d) == DarkAt(PutAt(View(buf), c, v), d)
    {
      DarkAtView(buf, d);
      DarkAtView(buf', d);
      PutAtMeaning(View(buf), buf[0], c, v, d);
    }
    PutAtMeaning(View(buf), buf[0], c, v, c);
    CellsEqual(View(buf'), PutAt(View(buf), c, v), buf[0]);
  }

  method GetModule(qrcode: array<byte>, x: nat, y: nat) returns (dark: bool)
    requires Valid(qrcode[..]) && Inside(qrcode[0], x, y)
    ensures dark == Dark(qrcode[..], x, y)
  {
    hide Bit, View, Index;
    InBuffer(qrcode[0], x, y);
    var index := Index(qrcode[0], x, y);
    dark := Bit(qrcode[index / 8 + 1], index % 8);
  }

  /** Rows of modules follow one another behind the first byte, eight to a byte, the least significant bit first. */
  lemma ModuleBit(buf: seq<byte>, x: nat, y: nat)
    requires Valid(buf) && Inside(buf[0], x, y)
    ensures (y * buf[0] + x) / 8 + 1 < |buf|
    ensures Dark(buf, x, y) == (buf[(y * buf[0] + x) / 8 + 1] / Pow2((y * buf[0] + x) % 8) % 2 == 1)
  {
    InBuffer(buf[0], x, y);
    ShrIs(buf[(y * buf[0] + x) / 8 + 1], (y * buf[0] + x) % 8);
    hide Shr;
  }

  method SetModule(qrcode: array<byte>, x: nat, y: nat, isBlack: bool)
    requires Valid(qrcode[..]) && Inside(qrcode[0], x, y)
    modifies qrcode
    ensures Valid(qrcode[..]) && qrcode[0] == old(qrcode[0])
    ensures forall x', y' :: Dark(qrcode[..], x', y')
              == if x' == x && y' == y then isBlack else old(Dark(qrcode[..], x', y'))
  {
    hide SetBit, View, Index, Dark;
    InBuffer(qrcode[0], x, y);
    ghost var buf := qrcode[..];
    var index := Index(qrcode[0], x, y);
    var bitIndex, byteIndex := index % 8, index / 8 + 1;
    SetBitMeaning(qrcode[byteIndex], bitIndex, isBlack, 0);
    qrcode[byteIndex] := SetBit(qrcode[byteIndex], bitIndex, isBlack);
    assert qrcode[..] == Updated(buf, index, isBlack);
    forall x', y'
      ensures Dark(qrcode[..], x', y') == if x' == x && y' == y then isBlack else Dark(buf, x', y')
    {
      DarkUpdate(buf, x, y, index, isBlack, x', y');
    }
    DarkUpdate(buf, x, y, index, isBlack, x, y);
  }

  method SetModuleBounded(qrcode: array<byte>, x: int, y: int, isBlack: bool)
    requires Valid(qrcode[..])
    modifies qrcode
    ensures Valid(qrcode[..]) && qrcode[0] == old(qrcode[0])
    ensures forall x', y' :: Dark(qrcode[..], x', y')
              == if x' == x && y' == y then isBlack && Inside(qrcode[0], x, y) else old(Dark(qrcode[..], x', y'))
  {
    LightOutside(qrcode[..], x, y);
    hide Dark;
    if Inside(qrcode[0], x, y) {
      SetModule(qrcode, x, y, isBlack);
    }
  }

  lemma LightOutside(buf: seq<byte>, x: int, y: int)
    requires Valid(buf)
    ensures !Inside(buf[0], x, y) ==> !Dark(buf, x, y)
  {
  }
}
