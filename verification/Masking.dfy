/** Masks, format information and the grids they produce. */
module Masking {
  import opened Bitwise
  import opened Symbol
  import opened Tables
  import opened FunctionModules
  import opened Drawing

  type Mask = m: int | 0 <= m <= 7

  // ----- Masks

  /** Whether mask m inverts the data module at (x, y). */
  predicate Inverts(m: Mask, x: nat, y: nat) {
    match m
    case 0 => (x + y) % 2 == 0
    case 1 => y % 2 == 0
    case 2 => x % 3 == 0
    case 3 => (x + y) % 3 == 0
    case 4 => (x / 3 + y / 2) % 2 == 0
    case 5 => x * y % 2 + x * y % 3 == 0
    case 6 => (x * y % 2 + x * y % 3) % 2 == 0
    case 7 => ((x + y) % 2 + x * y % 3) % 2 == 0
  }

  // What the masks look like; each of these laws, with the value at (0, 0), determines its mask.

  /** Mask 0 is a chessboard. */
  lemma Mask0(x: nat, y: nat)
    ensures Inverts(0, 0, 0)
    ensures Inverts(0, x + 1, y) != Inverts(0, x, y) && Inverts(0, x, y + 1) != Inverts(0, x, y)
  {
  }

  /** Mask 1 inverts every second row. */
  lemma Mask1(x: nat, y: nat)
    ensures Inverts(1, 0, 0)
    ensures Inverts(1, x + 1, y) == Inverts(1, x, y) && Inverts(1, x, y + 1) != Inverts(1, x, y)
  {
  }

  /** Exactly one of three. */
  predicate OneOfThree(a: bool, b: bool, c: bool) {
    (a && !b && !c) || (!a && b && !c) || (!a && !b && c)
  }

  lemma EveryThird(t: nat)
    ensures OneOfThree(t % 3 == 0, (t + 1) % 3 == 0, (t + 2) % 3 == 0)
    ensures (t + 3) % 3 == 0 <==> t % 3 == 0
  {
  }

  lemma ThirdColumn(x: nat, y: nat)
    ensures Inverts(2, x, y) <==> x % 3 == 0
  {
  }

  lemma ThirdDiagonal(x: nat, y: nat, t: nat)
    requires t == x + y
    ensures Inverts(3, x, y) <==> t % 3 == 0
  {
  }

  /** Mask 2 inverts every third column. */
  lemma Mask2(x: nat, y: nat)
    ensures Inverts(2, 0, 0)
    ensures Inverts(2, x, y + 1) == Inverts(2, x, y) && Inverts(2, x + 3, y) == Inverts(2, x, y)
    ensures OneOfThree(Inverts(2, x, y), Inverts(2, x + 1, y), Inverts(2, x + 2, y))
  {
    hide Inverts;
    EveryThird(x);
    ThirdColumn(0, 0);
    ThirdColumn(x, y);
    ThirdColumn(x, y + 1);
    ThirdColumn(x + 1, y);
    ThirdColumn(x + 2, y);
    ThirdColumn(x + 3, y);
  }

  /** Mask 3 inverts every third diagonal that rises to the right. */
  lemma Mask3(x: nat, y: nat)
    ensures Inverts(3, 0, 0)
    ensures Inverts(3, x + 1, y) == Inverts(3, x, y + 1)
    ensures OneOfThree(Inverts(3, x, y), Inverts(3, x + 1, y), Inverts(3, x + 2, y))
  {
    hide Inverts;
    var t := x + y;
    EveryThird(t);
    ThirdDiagonal(0, 0, 0);
    ThirdDiagonal(x, y, t);
    ThirdDiagonal(x + 1, y, t + 1);
    ThirdDiagonal(x, y + 1, t + 1);
    ThirdDiagonal(x + 2, y, t + 2);
  }

  lemma Thirds(x: nat)
    ensures (x + 3) / 3 == x / 3 + 1
    ensures x % 3 < 2 ==> (x + 1) / 3 == x / 3
  {
  }

  lemma Halves(y: nat)
    ensures (y + 2) / 2 == y / 2 + 1
    ensures y % 2 == 0 ==> (y + 1) / 2 == y / 2
  {
  }

  lemma ParityFlips(a: nat, b: nat)
    ensures ((a + 1 + b) % 2 == 0) != ((a + b) % 2 == 0)
    ensures ((a + (b + 1)) % 2 == 0) != ((a + b) % 2 == 0)
  {
  }

  lemma Field4(x: nat, y: nat, a: nat, b: nat)
    requires a == x / 3 && b == y / 2
    ensures Inverts(4, x, y) <==> (a + b) % 2 == 0
  {
  }

  /** Mask 4 is a chessboard of fields three wide and two high. */
  lemma Mask4(x: nat, y: nat)
    ensures Inverts(4, 0, 0)
    ensures x % 3 < 2 ==> Inverts(4, x + 1, y) == Inverts(4, x, y)
    ensures y % 2 == 0 ==> Inverts(4, x, y + 1) == Inverts(4, x, y)
    ensures Inverts(4, x + 3, y) != Inverts(4, x, y) && Inverts(4, x, y + 2) != Inverts(4, x, y)
  {
    hide Inverts;
    var a, b := x / 3, y / 2;
    Thirds(x);
    Halves(y);
    ParityFlips(a, b);
    Field4(0, 0, 0, 0);
    Field4(x, y, a, b);
    Field4(x + 3, y, a + 1, b);
    Field4(x, y + 2, a, b + 1);
    if x % 3 < 2 { Field4(x + 1, y, a, b); }
    if y % 2 == 0 { Field4(x, y + 1, a, b); }
  }

  lemma SixFold(q: nat, r: nat)
    ensures (6 * q + r) % 2 == r % 2 && (6 * q + r) % 3 == r % 3
  {
    AddTwos(3 * q, r);
    AddThrees(2 * q, r);
  }

  lemma AddTwos(a: nat, r: nat)
    ensures (2 * a + r) % 2 == r % 2
  {
  }

  lemma AddThrees(a: nat, r: nat)
    ensures (3 * a + r) % 3 == r % 3
  {
  }

  lemma ModuloSix(p: nat)
    ensures p % 2 + p % 3 == 0 <==> p % 6 == 0
    ensures (p % 2 + p % 3) % 2 == 0 <==> p % 6 < 3
  {
    var r := p % 6;
    assert p == 6 * (p / 6) + r;
    SixFold(p / 6, r);
    BelowSix(r);
  }

  lemma BelowSix(r: nat)
    requires r < 6
    ensures r % 2 + r % 3 == 0 <==> r == 0
    ensures (r % 2 + r % 3) % 2 == 0 <==> r < 3
  {
  }

  /** Mask 5 inverts exactly where six divides the product of the coordinates. */
  lemma Mask5(x: nat, y: nat)
    ensures Inverts(5, 0, 0)
    ensures Inverts(5, x, y) <==> x * y % 6 == 0
  {
    ModuloSix(x * y);
  }

  /** Mask 6 inverts exactly where the product leaves less than three. */
  lemma Mask6(x: nat, y: nat)
    ensures Inverts(6, 0, 0)
    ensures Inverts(6, x, y) <==> x * y % 6 < 3
  {
    ModuloSix(x * y);
  }

  lemma ParityOfSum(s: nat, p: nat, t: nat)
    ensures ((s % 2 + t) % 2 == 0) != ((p % 2 + t) % 2 == 0) <==> (s + p) % 2 == 1
  {
  }

  /** Mask 7 differs from mask 6 exactly where sum and product of the coordinates differ in parity. */
  lemma Mask7(x: nat, y: nat)
    ensures Inverts(7, 0, 0)
    ensures Inverts(7, x, y) != Inverts(6, x, y) <==> (x + y + x * y) % 2 == 1
  {
    hide Inverts;
    Products(0, 0, 0);
    AtProduct7(x, y, x * y);
  }

  lemma AtProduct7(x: nat, y: nat, p: nat)
    requires p == x * y
    ensures Inverts(7, x, y) != Inverts(6, x, y) <==> (x + y + p) % 2 == 1
  {
    Products(x, y, p);
    hide Inverts;
    ParityOfSum(x + y, p, p % 3);
  }

  lemma Products(x: nat, y: nat, p: nat)
    requires p == x * y
    ensures Inverts(6, x, y) <==> (p % 2 + p % 3) % 2 == 0
    ensures Inverts(7, x, y) <==> ((x + y) % 2 + p % 3) % 2 == 0
  {
  }

  /** The grid with every module that is light in f inverted where the mask says so. */
  function MaskGrid(f: Grid, g: Grid, m: Mask): (h: Grid)
    requires Square(f, |g|) && Square(g, |g|)
    ensures Square(h, |g|)
    ensures forall x, y | Inside(|g|, x, y) :: At(h, x, y) == (At(g, x, y) != (!At(f, x, y) && Inverts(m, x, y)))
  {
    seq(|g|, y requires 0 <= y < |g| =>
      seq(|g|, x requires 0 <= x < |g| => At(g, x, y) != (!At(f, x, y) && Inverts(m, x, y))))
  }

  /** Masking twice gives the grid back. */
  lemma MaskTwice(f: Grid, g: Grid, m: Mask)
    requires Square(f, |g|) && Square(g, |g|)
    ensures MaskGrid(f, MaskGrid(f, g, m), m) == g
  {
    hide Inverts;
    GridsEqual(MaskGrid(f, MaskGrid(f, g, m), m), g, |g|);
  }

  method ApplyMask(functionModules: array<byte>, qrcode: array<byte>, mask: Mask)
    requires Valid(functionModules[..]) && Valid(qrcode[..]) && functionModules[0] == qrcode[0]
    requires functionModules != qrcode
    modifies qrcode
    ensures Valid(qrcode[..]) && qrcode[0] == old(qrcode[0])
    ensures View(qrcode[..]) == MaskGrid(View(functionModules[..]), old(View(qrcode[..])), mask)
  {
    hide Dark, View, MaskGrid, Inverts;
    var qrsize: nat := qrcode[0];
    ghost var buf, f := qrcode[..], functionModules[..];
    for y := 0 to qrsize
      invariant functionModules[..] == f
      invariant Valid(qrcode[..]) && qrcode[0] == qrsize
      invariant forall x', y' :: Dark(qrcode[..], x', y')
                  == (Dark(buf, x', y') != (0 <= y' < y && 0 <= x' < qrsize
                                            && !Dark(f, x', y') && Inverts(mask, x', y')))
    {
      for x := 0 to qrsize
        invariant functionModules[..] == f
        invariant Valid(qrcode[..]) && qrcode[0] == qrsize
        invariant forall x', y' :: Dark(qrcode[..], x', y')
                    == (Dark(buf, x', y') != ((0 <= y' < y || (y' == y && x' < x)) && 0 <= x' < qrsize
                                              && !Dark(f, x', y') && Inverts(mask, x', y')))
      {
        var reserved := GetModule(functionModules, x, y);
        if reserved { continue; }
        var invert := Inverts(mask, x, y);
        var val := GetModule(qrcode, x, y);
        SetModule(qrcode, x, y, val != invert);
      }
    }
    MaskView(f, buf, qrcode[..], mask);
  }

  lemma MaskView(f: seq<byte>, buf: seq<byte>, buf': seq<byte>, m: Mask)
    requires Valid(f) && Valid(buf) && Valid(buf') && f[0] == buf[0] == buf'[0]
    requires forall x, y | Inside(buf[0], x, y) ::
               Dark(buf', x, y) == (Dark(buf, x, y) != (!Dark(f, x, y) && Inverts(m, x, y)))
    ensures View(buf') == MaskGrid(View(f), View(buf), m)
  {
    hide Module, Inverts;
    GridsEqual(View(buf'), MaskGrid(View(f), View(buf), m), buf[0]);
  }

  // ----- Format information

  const ECL_BITS: seq<nat> := [1, 0, 3, 2]

  /** The five data bits: the level's code and the mask. */
  function FormatData(ecl: Ecc, mask: Mask): (d: nat)
    ensures d < 32
  {
    ECL_BITS[ecl] * 8 + mask
  }

  function FormatBits(ecl: Ecc, mask: Mask): nat {
    var data := FormatData(ecl, mask);
    Xor(Or(data * 1024, CyclicRemainder(data, 10, 0x537, 10)), 0x5412)
  }

  lemma FormatBounded(ecl: Ecc, mask: Mask)
    ensures FormatBits(ecl, mask) < Pow2(15)
    ensures Shr(Xor(FormatBits(ecl, mask), 0x5412), 10) == FormatData(ecl, mask)
  {
    hide Or, Xor, CyclicRemainder;
    var data := FormatData(ecl, mask);
    var rem := CyclicRemainder(data, 10, 0x537, 10);
    assert Pow2(10) == 1024 && Pow2(5) == 32 && Pow2(15) == 32768;
    CyclicBounded(data, 10, 0x537, 10);
    Joined(data, rem, 10, 5);
    JoinedHigh(data, rem, 10);
    var joined := Or(data * 1024, rem);
    Bounded(joined, 0x5412, 15);
    XorAssociates(joined, 0x5412, 0x5412);
    XorSelf(0x5412);
    XorSelf(joined);
  }

  /** The bit of the format information at (x, y): 0 to 14, 15 for the module that is always dark, or 16. */
  function FormatIndex(n: nat, x: int, y: int): int {
    if x == 8 && 0 <= y <= 5 then y
    else if x == 8 && y == 7 then 6
    else if x == 8 && y == 8 then 7
    else if x == 7 && y == 8 then 8
    else if y == 8 && 0 <= x <= 5 then 14 - x
    else if y == 8 && n - 8 <= x < n then n - 1 - x
    else if x == 8 && n - 7 <= y < n then y - n + 15
    else if x == 8 && y == n - 8 then 15
    else 16
  }

  /** The colour of a module once format information is drawn over a module of colour `was`. */
  predicate Formatted(n: nat, bits: nat, x: int, y: int, was: bool) {
    var i := FormatIndex(n, x, y);
    if i == 16 then was else i == 15 || (0 <= i && Bit(bits, i))
  }

  function FormatGrid(g: Grid, bits: nat): (h: Grid)
    requires Square(g, |g|)
    ensures Square(h, |g|)
    ensures forall x, y | Inside(|g|, x, y) :: At(h, x, y) == Formatted(|g|, bits, x, y, At(g, x, y))
  {
    seq(|g|, y requires 0 <= y < |g| =>
      seq(|g|, x requires 0 <= x < |g| => Formatted(|g|, bits, x, y, At(g, x, y))))
  }

  /** Format information lies on function modules only. */
  lemma FormatOnFunctions(v: Version, x: int, y: int)
    requires Inside(Side(v), x, y) && FormatIndex(Side(v), x, y) != 16
    ensures IsFunction(v, x, y)
  {
    hide InAlignment, InVersionBlock;
  }

  /** The copy around the top left finder. */
  predicate FirstCopy(x: int, y: int) {
    x <= 8 && y <= 8
  }

  method DrawFirstCopy(bits: nat, qrcode: array<byte>)
    requires Valid(qrcode[..])
    modifies qrcode
    ensures Valid(qrcode[..]) && qrcode[0] == old(qrcode[0])
    ensures forall x, y :: Dark(qrcode[..], x, y)
              == if FirstCopy(x, y) then Formatted(qrcode[0], bits, x, y, old(Dark(qrcode[..], x, y)))
                 else old(Dark(qrcode[..], x, y))
  {
    hide Dark, Bit;
    for i := 0 to 6
      invariant Valid(qrcode[..]) && qrcode[0] == old(qrcode[0])
      invariant forall x, y :: Dark(qrcode[..], x, y)
                  == if x == 8 && 0 <= y < i then Bit(bits, y) else old(Dark(qrcode[..], x, y))
    {
      SetModule(qrcode, 8, i, Bit(bits, i));
    }
    SetModule(qrcode, 8, 7, Bit(bits, 6));
    SetModule(qrcode, 8, 8, Bit(bits, 7));
    SetModule(qrcode, 7, 8, Bit(bits, 8));
    ghost var buf := qrcode[..];
    for i := 9 to 15
      invariant Valid(qrcode[..]) && qrcode[0] == old(qrcode[0])
      invariant forall x, y :: Dark(qrcode[..], x, y)
                  == if y == 8 && 14 - i < x <= 5 then Bit(bits, 14 - x) else Dark(buf, x, y)
    {
      SetModule(qrcode, 14 - i, 8, Bit(bits, i));
    }
  }

  method DrawSecondCopy(bits: nat, qrcode: array<byte>)
    requires Valid(qrcode[..])
    modifies qrcode
    ensures Valid(qrcode[..]) && qrcode[0] == old(qrcode[0])
    ensures forall x, y :: Dark(qrcode[..], x, y)
              == if FirstCopy(x, y) then old(Dark(qrcode[..], x, y))
                 else Formatted(qrcode[0], bits, x, y, old(Dark(qrcode[..], x, y)))
  {
    hide Dark, Bit;
    var qrsize: int := qrcode[0];
    for i := 0 to 8
      invariant Valid(qrcode[..]) && qrcode[0] == qrsize
      invariant forall x, y :: Dark(qrcode[..], x, y)
                  == if y == 8 && qrsize - 1 - i < x < qrsize then Bit(bits, qrsize - 1 - x)
                     else old(Dark(qrcode[..], x, y))
    {
      SetModule(qrcode, qrsize - 1 - i, 8, Bit(bits, i));
    }
    ghost var buf := qrcode[..];
    for i := 8 to 15
      invariant Valid(qrcode[..]) && qrcode[0] == qrsize
      invariant forall x, y :: Dark(qrcode[..], x, y)
                  == if x == 8 && qrsize - 7 <= y < qrsize - 15 + i then Bit(bits, y - qrsize + 15) else Dark(buf, x, y)
    {
      SetModule(qrcode, 8, qrsize - 15 + i, Bit(bits, i));
    }
    SetModule(qrcode, 8, qrsize - 8, true);
  }

  method ComputeFormatBits(ecl: Ecc, mask: Mask) returns (bits: nat)
    ensures bits == FormatBits(ecl, mask)
    ensures Shr(bits, 15) == 0
  {
    hide Xor, Or, Shr, CyclicRemainder;
    var data := FormatData(ecl, mask);
    var rem: nat := data;
    CyclicStart(data, 10, 0x537);
    for i := 0 to 10
      invariant rem == CyclicRemainder(data, 10, 0x537, i)
    {
      CyclicNext(data, 10, 0x537, i);
      rem := Xor(2 * rem, Shr(rem, 9) * 0x537);
    }
    bits := Xor(Or(data * 1024, rem), 0x5412);
    FormatBounded(ecl, mask);
    ShrBounded(bits, 15, 0);
    assert Pow2(0) == 1;
  }

  method DrawFormatBits(ecl: Ecc, mask: Mask, qrcode: array<byte>)
    requires Valid(qrcode[..])
    modifies qrcode
    ensures Valid(qrcode[..]) && qrcode[0] == old(qrcode[0])
    ensures View(qrcode[..]) == FormatGrid(old(View(qrcode[..])), FormatBits(ecl, mask))
  {
    hide Dark, View, FormatGrid, FormatBits, Bit, FirstCopy, Formatted;
    var bits := ComputeFormatBits(ecl, mask);
    ghost var buf := qrcode[..];
    DrawFirstCopy(bits, qrcode);
    DrawSecondCopy(bits, qrcode);
    FormatView(bits, buf, qrcode[..]);
  }

  lemma FormatView(bits: nat, buf: seq<byte>, buf': seq<byte>)
    requires Valid(buf) && Valid(buf') && buf[0] == buf'[0]
    requires forall x, y :: Dark(buf', x, y) == Formatted(buf[0], bits, x, y, Dark(buf, x, y))
    ensures View(buf') == FormatGrid(View(buf), bits)
  {
    hide Module, Formatted;
    forall x, y | Inside(buf[0], x, y)
      ensures At(View(buf'), x, y) == At(FormatGrid(View(buf), bits), x, y)
    {
      assert Dark(buf', x, y) == At(View(buf'), x, y) && Dark(buf, x, y) == At(View(buf), x, y);
    }
    GridsEqual(View(buf'), FormatGrid(View(buf), bits), buf[0]);
  }
}
