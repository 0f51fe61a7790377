/** The colours of the function modules: timing, finders, alignment, version and format. */
module Drawing {
  import opened Bitwise
  import opened Symbol
  import opened Tables
  import opened FunctionModules

  // ----- Bounded cyclic codes

  /** `steps` turns of (rem << 1) ^ ((rem >> width-1) * generator). */
  function CyclicRemainder(rem: nat, width: nat, generator: nat, steps: nat): nat
    requires width > 0
  {
    if steps == 0 then rem
    else
      var r := CyclicRemainder(rem, width, generator, steps - 1);
      Xor(2 * r, Shr(r, width - 1) * generator)
  }

  lemma CyclicStart(rem: nat, width: nat, generator: nat)
    requires width > 0
    ensures CyclicRemainder(rem, width, generator, 0) == rem
  {
  }

  lemma CyclicNext(rem: nat, width: nat, generator: nat, steps: nat)
    requires width > 0
    ensures var r := CyclicRemainder(rem, width, generator, steps);
            CyclicRemainder(rem, width, generator, steps + 1) == Xor(2 * r, Shr(r, width - 1) * generator)
  {
  }

  lemma CyclicStep(r: nat, width: nat, generator: nat)
    requires width > 0 && r < Pow2(width) <= generator < 2 * Pow2(width)
    ensures Xor(2 * r, Shr(r, width - 1) * generator) < Pow2(width)
  {
    hide Xor, Shr;
    ShrBounded(r, width - 1, 0);
    ShrBounded(r, width - 1, 1);
    assert Pow2(1) == 2 && Pow2(0) == 1;
    if r >= Pow2(width - 1) {
      assert Shr(r, width - 1) == 1;
      XorCancelsTop(2 * r, generator, width);
    } else {
      assert Shr(r, width - 1) == 0;
      XorSelf(2 * r);
    }
  }

  lemma {:induction false} CyclicBounded(rem: nat, width: nat, generator: nat, steps: nat)
    requires width > 0 && rem < Pow2(width) <= generator < 2 * Pow2(width)
    ensures CyclicRemainder(rem, width, generator, steps) < Pow2(width)
  {
    hide Xor, Shr, Pow2;
    if steps > 0 {
      CyclicBounded(rem, width, generator, steps - 1);
      CyclicStep(CyclicRemainder(rem, width, generator, steps - 1), width, generator);
    }
  }

  lemma {:induction false} ShrOr(a: nat, b: nat, i: nat)
    ensures Shr(Or(a, b), i) == Or(Shr(a, i), Shr(b, i))
  {
    hide Or;
    if i > 0 {
      OrHalves(a, b);
      ShrOr(a / 2, b / 2, i - 1);
    }
  }

  lemma {:induction false} OrZero(a: nat)
    ensures Or(a, 0) == a
  {
    if a > 0 { OrZero(a / 2); }
  }

  lemma {:induction false} ShrShl(a: nat, i: nat)
    ensures Shr(a * Pow2(i), i) == a
  {
    if i > 0 {
      assert a * Pow2(i) / 2 == a * Pow2(i - 1);
      ShrShl(a, i - 1);
    }
  }

  /** The high part of (data << width) | rem is data. */
  lemma JoinedHigh(data: nat, rem: nat, width: nat)
    requires rem < Pow2(width)
    ensures Shr(Or(data * Pow2(width), rem), width) == data
  {
    hide Or;
    ShrOr(data * Pow2(width), rem, width);
    ShrShl(data, width);
    ShrBounded(rem, width, 0);
    OrZero(data);
  }

  lemma Joined(data: nat, rem: nat, width: nat, extra: nat)
    requires rem < Pow2(width) && data < Pow2(extra)
    ensures Or(data * Pow2(width), rem) < Pow2(width + extra)
  {
    hide Or;
    JoinedHigh(data, rem, width);
    ShrBounded(Or(data * Pow2(width), rem), width, extra);
  }

  // ----- Version information

  function VersionBits(v: Version): nat {
    Or(v * 4096, CyclicRemainder(v, 12, 0x1F25, 12))
  }

  lemma VersionBitsBounded(v: Version)
    ensures Shr(VersionBits(v), 18) == 0
  {
    hide Or;
    assert Pow2(12) == 4096 && Pow2(6) == 64 && Pow2(0) == 1;
    CyclicBounded(v, 12, 0x1F25, 12);
    Joined(v, CyclicRemainder(v, 12, 0x1F25, 12), 12, 6);
    ShrBounded(VersionBits(v), 18, 0);
  }

  // ----- Where the light function modules are

  function Chebyshev(dx: int, dy: int): nat {
    var a, b := if dx < 0 then -dx else dx, if dy < 0 then -dy else dy;
    if b > a then b else a
  }

  /** The modules up to distance k form a square. */
  lemma ChebyshevIs(dx: int, dy: int, k: int)
    ensures Chebyshev(dx, dy) <= k <==> -k <= dx <= k && -k <= dy <= k
  {
  }

  /** The light rings of a finder pattern: the one inside the frame and the separator around it. */
  predicate Ring(dx: int, dy: int): (r: bool)
    ensures r ==> -4 <= dx <= 4 && -4 <= dy <= 4
  {
    Chebyshev(dx, dy) == 2 || Chebyshev(dx, dy) == 4
  }

  predicate LightFinder(n: nat, x: int, y: int) {
    Ring(x - 3, y - 3) || Ring(x - (n - 4), y - 3) || Ring(x - 3, y - (n - 4))
  }

  /** The odd places of the timing lines from 7 up to a limit. */
  predicate TimingBelow(limit: int, x: int, y: int) {
    (x == 6 && 7 <= y < limit && y % 2 == 1) || (y == 6 && 7 <= x < limit && x % 2 == 1)
  }

  predicate LightTiming(n: nat, x: int, y: int) {
    TimingBelow(n - 7, x, y)
  }

  /** The nine inner modules of an alignment square. */
  predicate InAlignmentCore(v: Version, x: int, y: int) {
    InAlignment(v, x, y)
    && Chebyshev(x - AlignPos(v, Near(v, x)), y - AlignPos(v, Near(v, y))) <= 1
  }

  /** The centre of an alignment pattern: both coordinates are positions. */
  predicate AlignmentCentre(v: Version, x: int, y: int) {
    && Near(v, x) >= 0 && x == AlignPos(v, Near(v, x))
    && Near(v, y) >= 0 && y == AlignPos(v, Near(v, y))
  }

  /** The bit of the version information at a module of the version blocks; 18 elsewhere. */
  function VersionIndex(v: Version, x: int, y: int): (i: int)
    ensures i == 18 <==> v < 7 || x < 0 || y < 0 || !InVersionBlock(v, x, y)
    ensures 0 <= i <= 18
  {
    var start := Side(v) - 11;
    if v >= 7 && 0 <= y < 6 && start <= x < start + 3 then 3 * y + (x - start)
    else if v >= 7 && 0 <= x < 6 && start <= y < start + 3 then 3 * x + (y - start)
    else 18
  }

  /** The colour of a module once the function modules are drawn over a module of colour `was`. */
  predicate Drawn(v: Version, x: int, y: int, was: bool) {
    if VersionIndex(v, x, y) < 18 then Bit(VersionBits(v), VersionIndex(v, x, y))
    else if InAlignmentCore(v, x, y) then AlignmentCentre(v, x, y)
    else was && !LightFinder(Side(v), x, y) && !LightTiming(Side(v), x, y)
  }

  /** Drawing the function modules changes no data module. */
  lemma DrawnKeepsData(v: Version, x: int, y: int, was: bool)
    requires Inside(Side(v), x, y) && !IsFunction(v, x, y)
    ensures Drawn(v, x, y, was) == was
  {
    hide Near, AlignPos;
  }

  function DrawnGrid(v: Version, g: Grid): (h: Grid)
    requires Square(g, Side(v))
    ensures Square(h, Side(v))
    ensures forall x, y | Inside(Side(v), x, y) :: At(h, x, y) == Drawn(v, x, y, At(g, x, y))
  {
    seq(Side(v), y requires 0 <= y < Side(v) =>
      seq(Side(v), x requires 0 <= x < Side(v) => Drawn(v, x, y, At(g, x, y))))
  }

  // ----- Drawing them

  lemma TimingNext(i: nat, x: int, y: int)
    requires i % 2 == 1 && i >= 7
    ensures TimingBelow(i + 2, x, y) <==> TimingBelow(i, x, y) || (x == 6 && y == i) || (y == 6 && x == i)
    ensures TimingBelow(i - 1, x, y) == TimingBelow(i, x, y)
    ensures !TimingBelow(7, x, y)
  {
  }

  method DrawTiming(qrcode: array<byte>)
    requires Valid(qrcode[..]) && qrcode[0] % 2 == 1
    modifies qrcode
    ensures Valid(qrcode[..]) && qrcode[0] == old(qrcode[0])
    ensures forall x, y :: Dark(qrcode[..], x, y) == (old(Dark(qrcode[..], x, y)) && !LightTiming(qrcode[0], x, y))
  {
    hide Dark, TimingBelow;
    var qrsize: nat := qrcode[0];
    var i := 7;
    forall x, y ensures !TimingBelow(i, x, y) { TimingNext(i, x, y); }
    while i < qrsize - 7
      invariant i % 2 == 1 && 7 <= i <= qrsize - 6
      invariant Valid(qrcode[..]) && qrcode[0] == qrsize
      invariant forall x, y :: Dark(qrcode[..], x, y) == (old(Dark(qrcode[..], x, y)) && !TimingBelow(i, x, y))
    {
      SetModule(qrcode, 6, i, false);
      SetModule(qrcode, i, 6, false);
      var next := i + 2;
      forall x, y
        ensures TimingBelow(next, x, y) <==> TimingBelow(i, x, y) || (x == 6 && y == i) || (y == 6 && x == i)
      {
        TimingNext(i, x, y);
      }
      i := next;
    }
    var end := qrsize - 7;
    forall x, y ensures TimingBelow(end, x, y) == TimingBelow(i, x, y) { TimingNext(i, x, y); }
  }

  /** A light module of the finders in the row dy from a centre, among the first columns. */
  predicate FinderRow(n: nat, dy: int, limit: int, x: int, y: int) {
    || (y == 3 + dy && Ring(x - 3, dy) && x - 3 < limit)
    || (y == 3 + dy && Ring(x - (n - 4), dy) && x - (n - 4) < limit)
    || (y == n - 4 + dy && Ring(x - 3, dy) && x - 3 < limit)
  }

  lemma FinderRowNext(n: nat, dy: int, dx: int, x: int, y: int)
    ensures !FinderRow(n, dy, -4, x, y)
    ensures FinderRow(n, dy, dx + 1, x, y) <==>
            || FinderRow(n, dy, dx, x, y)
            || (Ring(dx, dy) && ((x == 3 + dx && y == 3 + dy) || (x == n - 4 + dx && y == 3 + dy)
                                 || (x == 3 + dx && y == n - 4 + dy)))
  {
    hide Chebyshev;
  }

  method DrawFinderRow(qrcode: array<byte>, dy: int)
    requires Valid(qrcode[..]) && -4 <= dy <= 4
    modifies qrcode
    ensures Valid(qrcode[..]) && qrcode[0] == old(qrcode[0])
    ensures forall x, y :: Dark(qrcode[..], x, y) == (old(Dark(qrcode[..], x, y)) && !FinderRow(qrcode[0], dy, 5, x, y))
  {
    hide Dark, FinderRow, Chebyshev;
    var qrsize: nat := qrcode[0];
    forall x, y ensures !FinderRow(qrsize, dy, -4, x, y) { FinderRowNext(qrsize, dy, 0, x, y); }
    for dx := -4 to 5
      invariant Valid(qrcode[..]) && qrcode[0] == qrsize
      invariant forall x, y :: Dark(qrcode[..], x, y)
                  == (old(Dark(qrcode[..], x, y)) && !FinderRow(qrsize, dy, dx, x, y))
    {
      var dist := Chebyshev(dx, dy);
      if dist == 2 || dist == 4 {
        SetModuleBounded(qrcode, 3 + dx, 3 + dy, false);
        SetModuleBounded(qrcode, qrsize - 4 + dx, 3 + dy, false);
        SetModuleBounded(qrcode, 3 + dx, qrsize - 4 + dy, false);
      }
      forall x, y
        ensures FinderRow(qrsize, dy, dx + 1, x, y) <==>
                || FinderRow(qrsize, dy, dx, x, y)
                || (Ring(dx, dy) && ((x == 3 + dx && y == 3 + dy) || (x == qrsize - 4 + dx && y == 3 + dy)
                                     || (x == 3 + dx && y == qrsize - 4 + dy)))
      {
        FinderRowNext(qrsize, dy, dx, x, y);
      }
    }
  }

  /** A light module of the finders in the rows above dy, counted from each centre. */
  predicate FinderRowsAbove(n: nat, dy: int, x: int, y: int) {
    || (Ring(x - 3, y - 3) && y - 3 < dy)
    || (Ring(x - (n - 4), y - 3) && y - 3 < dy)
    || (Ring(x - 3, y - (n - 4)) && y - (n - 4) < dy)
  }

  lemma FinderRowsNext(n: nat, dy: int, x: int, y: int)
    ensures !FinderRowsAbove(n, -4, x, y)
    ensures FinderRowsAbove(n, dy + 1, x, y) <==> FinderRowsAbove(n, dy, x, y) || FinderRow(n, dy, 5, x, y)
    ensures FinderRowsAbove(n, 5, x, y) == LightFinder(n, x, y)
  {
    hide Chebyshev;
  }

  method DrawFinders(qrcode: array<byte>)
    requires Valid(qrcode[..])
    modifies qrcode
    ensures Valid(qrcode[..]) && qrcode[0] == old(qrcode[0])
    ensures forall x, y :: Dark(qrcode[..], x, y) == (old(Dark(qrcode[..], x, y)) && !LightFinder(qrcode[0], x, y))
  {
    hide Dark, FinderRow, FinderRowsAbove, LightFinder;
    var qrsize: nat := qrcode[0];
    forall x, y ensures !FinderRowsAbove(qrsize, -4, x, y) { FinderRowsNext(qrsize, 0, x, y); }
    for dy := -4 to 5
      invariant Valid(qrcode[..]) && qrcode[0] == qrsize
      invariant forall x, y :: Dark(qrcode[..], x, y)
                  == (old(Dark(qrcode[..], x, y)) && !FinderRowsAbove(qrsize, dy, x, y))
    {
      DrawFinderRow(qrcode, dy);
      forall x, y
        ensures FinderRowsAbove(qrsize, dy + 1, x, y)
           <==> FinderRowsAbove(qrsize, dy, x, y) || FinderRow(qrsize, dy, 5, x, y)
      {
        FinderRowsNext(qrsize, dy, x, y);
      }
    }
    forall x, y ensures FinderRowsAbove(qrsize, 5, x, y) == LightFinder(qrsize, x, y) {
      FinderRowsNext(qrsize, 0, x, y);
    }
  }

  method DrawAlignmentCore(qrcode: array<byte>, cx: nat, cy: nat)
    requires Valid(qrcode[..]) && 1 <= cx < qrcode[0] - 1 && 1 <= cy < qrcode[0] - 1
    modifies qrcode
    ensures Valid(qrcode[..]) && qrcode[0] == old(qrcode[0])
    ensures forall x, y :: Dark(qrcode[..], x, y)
              == if InRectangle(cx - 1, cy - 1, 3, 3, x, y) then x == cx && y == cy else old(Dark(qrcode[..], x, y))
  {
    hide Dark;
    for dy := -1 to 2
      invariant Valid(qrcode[..]) && qrcode[0] == old(qrcode[0])
      invariant forall x, y :: Dark(qrcode[..], x, y)
                  == if InRectangle(cx - 1, cy - 1, 3, dy + 1, x, y) then x == cx && y == cy
                     else old(Dark(qrcode[..], x, y))
    {
      ghost var buf := qrcode[..];
      for dx := -1 to 2
        invariant Valid(qrcode[..]) && qrcode[0] == old(qrcode[0])
        invariant forall x, y :: Dark(qrcode[..], x, y)
                    == if InRectangle(cx - 1, cy + dy, dx + 1, 1, x, y) then x == cx && y == cy else Dark(buf, x, y)
      {
        SetModule(qrcode, cx + dx, cy + dy, dx == 0 && dy == 0);
      }
    }
  }

  /** The inner squares of the alignment patterns that come before (i, j) in the drawing order. */
  predicate CoreBefore(v: Version, i: int, j: int, x: int, y: int) {
    InAlignmentCore(v, x, y) && (Near(v, x) < i || (Near(v, x) == i && Near(v, y) < j))
  }

  lemma CoreNext(v: Version, i: nat, j: nat, x: int, y: int)
    requires i < NumAlign(v) && j < NumAlign(v)
    ensures CoreBefore(v, i, j + 1, x, y) <==>
            || CoreBefore(v, i, j, x, y)
            || (!Corner(v, i, j) && InRectangle(AlignPos(v, i) - 1, AlignPos(v, j) - 1, 3, 3, x, y))
    ensures InRectangle(AlignPos(v, i) - 1, AlignPos(v, j) - 1, 3, 3, x, y) ==>
            (AlignmentCentre(v, x, y) <==> x == AlignPos(v, i) && y == AlignPos(v, j))
    ensures InRectangle(AlignPos(v, i) - 1, AlignPos(v, j) - 1, 3, 3, x, y) ==> !CoreBefore(v, i, j, x, y)
  {
    hide AlignPos, Near;
    NearIs(v, x, i);
    NearIs(v, y, j);
  }

  lemma CoreRow(v: Version, i: nat, x: int, y: int)
    requires i < NumAlign(v)
    ensures CoreBefore(v, i, NumAlign(v), x, y) == CoreBefore(v, i + 1, 0, x, y)
  {
    hide AlignPos, Near;
  }

  method DrawAlignment(version: Version, qrcode: array<byte>)
    requires Valid(qrcode[..]) && qrcode[0] == Side(version)
    modifies qrcode
    ensures Valid(qrcode[..]) && qrcode[0] == old(qrcode[0])
    ensures forall x, y :: Dark(qrcode[..], x, y)
              == if InAlignmentCore(version, x, y) then AlignmentCentre(version, x, y) else old(Dark(qrcode[..], x, y))
  {
    hide Dark, AlignPos, CoreBefore, AlignmentCentre, InRectangle, InAlignmentCore;
    var alignPatPos := new byte[7];
    var numAlign := GetAlignmentPatternPositions(version, alignPatPos);
    forall x, y ensures !CoreBefore(version, 0, 0, x, y) { CoreEnds(version, x, y); }
    for i := 0 to numAlign
      invariant Valid(qrcode[..]) && qrcode[0] == old(qrcode[0])
      invariant forall k | 0 <= k < numAlign :: alignPatPos[k] == AlignPos(version, k)
      invariant forall x, y :: Dark(qrcode[..], x, y)
                  == if CoreBefore(version, i, 0, x, y) then AlignmentCentre(version, x, y)
                     else old(Dark(qrcode[..], x, y))
    {
      for j := 0 to numAlign
        invariant Valid(qrcode[..]) && qrcode[0] == old(qrcode[0])
        invariant forall k | 0 <= k < numAlign :: alignPatPos[k] == AlignPos(version, k)
        invariant forall x, y :: Dark(qrcode[..], x, y)
                    == if CoreBefore(version, i, j, x, y) then AlignmentCentre(version, x, y)
                       else old(Dark(qrcode[..], x, y))
      {
        ghost var next := j + 1;
        forall x, y
          ensures CoreBefore(version, i, next, x, y) <==>
                  || CoreBefore(version, i, j, x, y)
                  || (!Corner(version, i, j)
                      && InRectangle(AlignPos(version, i) - 1, AlignPos(version, j) - 1, 3, 3, x, y))
          ensures InRectangle(AlignPos(version, i) - 1, AlignPos(version, j) - 1, 3, 3, x, y) ==>
                  (AlignmentCentre(version, x, y) <==> x == AlignPos(version, i) && y == AlignPos(version, j))
        {
          CoreNext(version, i, j, x, y);
        }
        if (i == 0 && j == 0) || (i == 0 && j == numAlign - 1) || (i == numAlign - 1 && j == 0) {
          continue;
        }
        AlignShape(version, i);
        AlignShape(version, j);
        DrawAlignmentCore(qrcode, alignPatPos[i], alignPatPos[j]);
      }
      ghost var next := i + 1;
      forall x, y ensures CoreBefore(version, i, numAlign, x, y) == CoreBefore(version, next, 0, x, y) {
        CoreRow(version, i, x, y);
      }
    }
    forall x, y ensures CoreBefore(version, numAlign, 0, x, y) == InAlignmentCore(version, x, y) {
      CoreEnds(version, x, y);
    }
  }

  lemma CoreEnds(v: Version, x: int, y: int)
    ensures !CoreBefore(v, 0, 0, x, y)
    ensures CoreBefore(v, NumAlign(v), 0, x, y) == InAlignmentCore(v, x, y)
  {
    hide AlignPos;
  }

  lemma VersionIndexIs(v: Version, i: nat, j: nat, x: int, y: int)
    requires v >= 7 && i < 6 && j < 3
    ensures var k := Side(v) - 11 + j;
            VersionIndex(v, x, y) == 3 * i + j <==> (x == k && y == i) || (x == i && y == k)
  {
  }

  method DrawVersion(version: Version, qrcode: array<byte>)
    requires Valid(qrcode[..]) && qrcode[0] == Side(version)
    modifies qrcode
    ensures Valid(qrcode[..]) && qrcode[0] == old(qrcode[0])
    ensures forall x, y :: Dark(qrcode[..], x, y)
              == if VersionIndex(version, x, y) < 18 then Bit(VersionBits(version), VersionIndex(version, x, y))
                 else old(Dark(qrcode[..], x, y))
  {
    hide Dark, VersionIndex, VersionBits, Shr, Xor, CyclicRemainder;
    if version < 7 {
      forall x, y ensures VersionIndex(version, x, y) == 18 { VersionIndexNone(version, x, y); }
      return;
    }
    var bits := ComputeVersionBits(version);
    ghost var t := 0;
    ShrZero(bits);
    forall x, y ensures VersionIndex(version, x, y) >= t { VersionIndexNone(version, x, y); }
    for i := 0 to 6
      invariant Valid(qrcode[..]) && qrcode[0] == old(qrcode[0])
      invariant t == 3 * i && bits == Shr(VersionBits(version), t)
      invariant forall x, y :: Dark(qrcode[..], x, y)
                  == if VersionIndex(version, x, y) < t then Bit(VersionBits(version), VersionIndex(version, x, y))
                     else old(Dark(qrcode[..], x, y))
    {
      for j := 0 to 3
        invariant Valid(qrcode[..]) && qrcode[0] == old(qrcode[0])
        invariant t == 3 * i + j && bits == Shr(VersionBits(version), t)
        invariant forall x, y :: Dark(qrcode[..], x, y)
                    == if VersionIndex(version, x, y) < t then Bit(VersionBits(version), VersionIndex(version, x, y))
                       else old(Dark(qrcode[..], x, y))
      {
        var k := qrcode[0] - 11 + j;
        forall x, y
          ensures VersionIndex(version, x, y) == t <==> (x == k && y == i) || (x == i && y == k)
        {
          VersionIndexIs(version, i, j, x, y);
        }
        SetModule(qrcode, k, i, bits % 2 == 1);
        SetModule(qrcode, i, k, bits % 2 == 1);
        ShrSplit(VersionBits(version), t);
        bits := bits / 2;
        t := t + 1;
      }
    }
  }

  lemma VersionIndexNone(v: Version, x: int, y: int)
    ensures 0 <= VersionIndex(v, x, y) <= 18
    ensures v < 7 ==> VersionIndex(v, x, y) == 18
  {
  }

  method ComputeVersionBits(version: Version) returns (bits: nat)
    ensures bits == VersionBits(version)
    ensures Shr(bits, 18) == 0
  {
    var rem: nat := version;
    for i := 0 to 12
      invariant rem == CyclicRemainder(version, 12, 0x1F25, i)
    {
      rem := Xor(2 * rem, Shr(rem, 11) * 0x1F25);
    }
    bits := Or(version * 4096, rem);
    VersionBitsBounded(version);
  }

  /** Turn the marked function modules into the patterns they stand for, leaving the data as it is. */
  method DrawWhiteFunctionModules(qrcode: array<byte>, version: Version)
    requires Valid(qrcode[..]) && qrcode[0] == Side(version)
    modifies qrcode
    ensures Valid(qrcode[..]) && qrcode[0] == old(qrcode[0])
    ensures View(qrcode[..]) == DrawnGrid(version, old(View(qrcode[..])))
  {
    hide Dark, View, LightTiming, LightFinder, InAlignmentCore, AlignmentCentre, VersionIndex, Bit, DrawnGrid;
    ghost var buf := qrcode[..];
    DrawTiming(qrcode);
    DrawFinders(qrcode);
    DrawAlignment(version, qrcode);
    DrawVersion(version, qrcode);
    DrawnView(version, buf, qrcode[..]);
  }

  lemma DrawnView(v: Version, buf: seq<byte>, buf': seq<byte>)
    requires Valid(buf) && Valid(buf') && buf[0] == buf'[0] == Side(v)
    requires forall x, y | Inside(Side(v), x, y) :: Dark(buf', x, y) == Drawn(v, x, y, Dark(buf, x, y))
    ensures View(buf') == DrawnGrid(v, View(buf))
  {
    hide Drawn, Module;
    GridsEqual(View(buf'), DrawnGrid(v, View(buf)), Side(v));
  }
}
