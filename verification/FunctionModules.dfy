/** The modules that carry no data: finders, timing lines, alignment squares, version and format. */
module FunctionModules {
  import opened Arithmetic
  import opened Bitwise
  import opened Symbol
  import opened Tables

  // ----- Alignment pattern positions

  function NumAlign(v: Version): nat {
    if v == 1 then 0 else v / 7 + 2
  }

  function AlignStep(v: Version): nat
    requires v >= 2
  {
    if v == 32 then 26
    else (4 * v + NumAlign(v) * 2 + 1) / (NumAlign(v) * 2 - 2) * 2
  }

  /** The distance of the i-th of k positions from the last, at a given spacing. */
  function FromLast(k: nat, i: nat, spacing: nat): int {
    (k - 1 - i) * spacing
  }

  /** The i-th coordinate at which alignment patterns are centred. */
  function AlignPos(v: Version, i: nat): int
    requires i < NumAlign(v)
  {
    if i == 0 then 6 else 4 * v + 10 - FromLast(NumAlign(v), i, AlignStep(v))
  }

  /** For each number k of positions except the special case of version 32, the quotient in the step formula. */
  lemma QuotientShape(v: Version, t: nat)
    requires v >= 2 && t == (4 * v + NumAlign(v) * 2 + 1) / (NumAlign(v) * 2 - 2)
    ensures t >= 6 && (NumAlign(v) - 2) * (t * 2) <= 4 * v - 8
  {
    var k := NumAlign(v);
    QuotientBounds(4 * v + k * 2 + 1, k * 2 - 2);
    assert k == 2 || k == 3 || k == 4 || k == 5 || k == 6 || k == 7;
    if k == 2 {
    } else if k == 3 {
    } else if k == 4 {
    } else if k == 5 {
    } else if k == 6 {
    } else {
    }
  }

  lemma StepBounds(v: Version)
    requires v >= 2
    ensures AlignStep(v) % 2 == 0 && AlignStep(v) >= 12
    ensures FromLast(NumAlign(v), 1, AlignStep(v)) <= 4 * v - 8
  {
    if v != 32 {
      hide NumAlign;
      QuotientShape(v, AlignStep(v) / 2);
    }
  }

  lemma QuotientBounds(a: nat, b: nat)
    requires b > 0
    ensures b * (a / b) <= a < b * (a / b) + b
  {
  }

  lemma EvenMultiple(a: nat, s: nat)
    requires s % 2 == 0
    ensures a * s % 2 == 0
  {
    assert a * s == 2 * (a * (s / 2));
  }

  lemma SpacedPositions(k: nat, i: nat, s: nat)
    requires 0 < i < k && s % 2 == 0
    ensures FromLast(k, i, s) % 2 == 0
    ensures 0 <= FromLast(k, i, s) <= FromLast(k, 1, s)
    ensures i + 1 < k ==> FromLast(k, i, s) == FromLast(k, i + 1, s) + s
    ensures i + 1 == k ==> FromLast(k, i, s) == 0
  {
    MulMonotone(k - 1 - i, k - 2, s);
    EvenMultiple(k - 1 - i, s);
  }

  lemma LaterPosition(v: Version, i: nat)
    requires 0 < i < NumAlign(v)
    ensures AlignPos(v, i) == 4 * v + 10 - FromLast(NumAlign(v), i, AlignStep(v))
  {
    hide AlignStep, NumAlign, FromLast;
  }

  lemma LaterShape(v: Version, i: nat)
    requires 0 < i < NumAlign(v)
    ensures AlignPos(v, i) % 2 == 0 && 18 <= AlignPos(v, i) <= Side(v) - 7
    ensures i + 1 < NumAlign(v) ==> AlignPos(v, i) + 12 <= AlignPos(v, i + 1)
    ensures i == NumAlign(v) - 1 ==> AlignPos(v, i) == Side(v) - 7
  {
    assert v >= 2;
    hide AlignStep, NumAlign, FromLast, AlignPos;
    StepBounds(v);
    SpacedPositions(NumAlign(v), i, AlignStep(v));
    LaterPosition(v, i);
    EvenDifference(4 * v + 10, FromLast(NumAlign(v), i, AlignStep(v)));
    if i + 1 < NumAlign(v) { LaterPosition(v, i + 1); }
  }

  lemma EvenDifference(a: int, b: int)
    requires a % 2 == 0 && b % 2 == 0
    ensures (a - b) % 2 == 0
  {
  }

  /** The positions are even, at least 12 apart, and end at the last row but six. */
  lemma AlignShape(v: Version, i: nat)
    requires i < NumAlign(v)
    ensures AlignPos(v, i) % 2 == 0 && 6 <= AlignPos(v, i) <= Side(v) - 7
    ensures i > 0 ==> AlignPos(v, i) >= 18
    ensures i + 1 < NumAlign(v) ==> AlignPos(v, i) + 12 <= AlignPos(v, i + 1)
    ensures i == NumAlign(v) - 1 ==> AlignPos(v, i) == Side(v) - 7
  {
    assert v >= 2 && NumAlign(v) >= 2;
    hide NumAlign, AlignPos;
    AlignFirst(v);
    LaterShape(v, if i == 0 then 1 else i);
  }

  lemma AlignFirst(v: Version)
    requires v >= 2
    ensures AlignPos(v, 0) == 6
  {
  }

  /** After the first gap the positions are equally spaced, by an even number. */
  lemma EquallySpaced(v: Version, i: nat)
    requires 0 < i && i + 1 < NumAlign(v)
    ensures AlignPos(v, i + 1) - AlignPos(v, i) == AlignPos(v, NumAlign(v) - 1) - AlignPos(v, NumAlign(v) - 2)
    ensures (AlignPos(v, i + 1) - AlignPos(v, i)) % 2 == 0
  {
    assert v >= 2;
    hide AlignStep, NumAlign, FromLast, AlignPos;
    StepBounds(v);
    AlignNext(v, i + 1);
    AlignNext(v, NumAlign(v) - 1);
  }

  lemma FirstGap(v: Version)
    requires v >= 2
    ensures AlignPos(v, 1) - AlignPos(v, 0) == 4 * v + 4 - FromLast(NumAlign(v), 1, AlignStep(v))
  {
    hide AlignStep, NumAlign, FromLast, AlignPos;
    AlignFirst(v);
    SomePositions(v);
    LaterPosition(v, 1);
  }

  lemma SomePositions(v: Version)
    requires v >= 2
    ensures 2 <= NumAlign(v) <= 7
  {
  }

  /** All gaps together are 4v + 4; the step is the least even one with which the first gap is no larger. */
  lemma LeastStep(v: Version)
    requires v >= 2 && v != 32
    ensures (NumAlign(v) - 1) * (AlignStep(v) - 2) < 4 * v + 4 <= (NumAlign(v) - 1) * AlignStep(v)
  {
    var k, t := NumAlign(v), (4 * v + NumAlign(v) * 2 + 1) / (NumAlign(v) * 2 - 2);
    QuotientBounds(4 * v + k * 2 + 1, k * 2 - 2);
    assert AlignStep(v) == 2 * t;
    hide AlignStep, NumAlign;
    SomePositions(v);
    StepProducts(k, t, v);
  }

  lemma StepProducts(k: nat, t: nat, v: nat)
    requires k >= 2
    requires (2 * k - 2) * t <= 4 * v + k * 2 + 1 < (2 * k - 2) * t + (2 * k - 2)
    ensures (k - 1) * (2 * t - 2) < 4 * v + 4 <= (k - 1) * (2 * t)
  {
    assert (k - 1) * (2 * t) == (2 * k - 2) * t;
    assert (k - 1) * (2 * t - 2) == (2 * k - 2) * t - (2 * k - 2);
  }

  lemma GapsTogether(k: nat, s: nat)
    requires k >= 2
    ensures (k - 1) * s == FromLast(k, 1, s) + s
  {
    assert (k - 1) * s == (k - 2) * s + s;
  }

  /**
   The spacing in general: the first gap is no larger than the others, and would be if they were
   smaller by two. Version 32 is the only exception.
   */
  lemma FirstGapNoLarger(v: Version)
    requires NumAlign(v) >= 3
    ensures var first, others := AlignPos(v, 1) - AlignPos(v, 0), AlignPos(v, 2) - AlignPos(v, 1);
            && (first <= others <==> v != 32)
            && (v != 32 ==> first + (NumAlign(v) - 2) * 2 > others - 2)
            && (v == 32 ==> first == 28 && others == 26)
  {
    assert v >= 2;
    hide AlignStep, NumAlign, FromLast, AlignPos;
    StepBounds(v);
    FirstGap(v);
    AlignNext(v, 2);
    GapsTogether(NumAlign(v), AlignStep(v));
    if v == 32 {
      Version32();
    } else {
      LeastStep(v);
      NextMultiple(NumAlign(v) - 2, AlignStep(v) - 2);
      LessSpaced(NumAlign(v), AlignStep(v));
    }
  }

  lemma LessSpaced(k: nat, s: nat)
    requires k >= 2 && s >= 2
    ensures (k - 2) * (s - 2) == FromLast(k, 1, s) - (k - 2) * 2
  {
  }

  lemma Version32()
    ensures NumAlign(32) == 6 && AlignStep(32) == 26 && FromLast(6, 1, 26) == 104
  {
  }

  /** The index below k of the alignment position within two modules of x, or -1. */
  function NearBelow(v: Version, x: int, k: nat): (a: int)
    requires k <= NumAlign(v)
    ensures -1 <= a < k
    ensures a >= 0 ==> AlignPos(v, a) - 2 <= x <= AlignPos(v, a) + 2
  {
    if k == 0 then -1
    else if AlignPos(v, k - 1) - 2 <= x <= AlignPos(v, k - 1) + 2 then k - 1
    else NearBelow(v, x, k - 1)
  }

  function Near(v: Version, x: int): (a: int)
    ensures -1 <= a < NumAlign(v)
  {
    NearBelow(v, x, NumAlign(v))
  }

  lemma {:induction false} AlignIncreasing(v: Version, i: nat, j: nat)
    requires i < j < NumAlign(v)
    ensures AlignPos(v, i) + 12 <= AlignPos(v, j)
  {
    hide AlignPos;
    AlignShape(v, j - 1);
    if i < j - 1 { AlignIncreasing(v, i, j - 1); }
  }

  lemma {:induction false} NearBelowIs(v: Version, x: int, a: nat, k: nat)
    requires a < k <= NumAlign(v) && AlignPos(v, a) - 2 <= x <= AlignPos(v, a) + 2
    ensures NearBelow(v, x, k) == a
  {
    hide AlignPos;
    if a < k - 1 {
      AlignIncreasing(v, a, k - 1);
      NearBelowIs(v, x, a, k - 1);
    }
  }

  /** A coordinate is near the a-th position exactly if it lies in the five modules around it. */
  lemma NearIs(v: Version, x: int, a: nat)
    requires a < NumAlign(v)
    ensures Near(v, x) == a <==> AlignPos(v, a) - 2 <= x <= AlignPos(v, a) + 2
  {
    hide AlignPos;
    if AlignPos(v, a) - 2 <= x <= AlignPos(v, a) + 2 { NearBelowIs(v, x, a, NumAlign(v)); }
  }

  /** The three pairs of indices that fall on finder patterns. */
  predicate Corner(v: Version, a: int, b: int) {
    var k := NumAlign(v);
    (a == 0 && b == 0) || (a == 0 && b == k - 1) || (a == k - 1 && b == 0)
  }

  predicate InAlignment(v: Version, x: int, y: int) {
    Near(v, x) >= 0 && Near(v, y) >= 0 && !Corner(v, Near(v, x), Near(v, y))
  }

  predicate InTiming(x: int, y: int) {
    x == 6 || y == 6
  }

  predicate InFinder(v: Version, x: int, y: int) {
    (x < 9 && y < 9) || (x >= Side(v) - 8 && y < 9) || (x < 9 && y >= Side(v) - 8)
  }

  predicate InVersionBlock(v: Version, x: int, y: int) {
    v >= 7 && ((Side(v) - 11 <= x < Side(v) - 8 && y < 6) || (x < 6 && Side(v) - 11 <= y < Side(v) - 8))
  }

  predicate IsFunction(v: Version, x: int, y: int) {
    InTiming(x, y) || InFinder(v, x, y) || InAlignment(v, x, y) || InVersionBlock(v, x, y)
  }

  function FunctionGrid(v: Version): (g: Grid)
    ensures Square(g, Side(v))
    ensures forall x, y | Inside(Side(v), x, y) :: At(g, x, y) == IsFunction(v, x, y)
  {
    seq(Side(v), y requires 0 <= y < Side(v) =>
      seq(Side(v), x requires 0 <= x < Side(v) => IsFunction(v, x, y)))
  }

  // ----- Drawing

  predicate InRectangle(left: int, top: int, width: int, height: int, x: int, y: int) {
    left <= x < left + width && top <= y < top + height
  }

  method FillRectangle(left: nat, top: nat, width: nat, height: nat, qrcode: array<byte>)
    requires Valid(qrcode[..]) && left + width <= qrcode[0] && top + height <= qrcode[0]
    modifies qrcode
    ensures Valid(qrcode[..]) && qrcode[0] == old(qrcode[0])
    ensures forall x, y :: Dark(qrcode[..], x, y)
              == (InRectangle(left, top, width, height, x, y) || old(Dark(qrcode[..], x, y)))
  {
    hide Dark;
    for dy := 0 to height
      invariant Valid(qrcode[..]) && qrcode[0] == old(qrcode[0])
      invariant forall x, y :: Dark(qrcode[..], x, y)
                  == (InRectangle(left, top, width, dy, x, y) || old(Dark(qrcode[..], x, y)))
    {
      ghost var buf := qrcode[..];
      for dx := 0 to width
        invariant Valid(qrcode[..]) && qrcode[0] == old(qrcode[0])
        invariant forall x, y :: Dark(qrcode[..], x, y)
                    == (InRectangle(left, top + dy, dx, 1, x, y) || Dark(buf, x, y))
      {
        SetModule(qrcode, left + dx, top + dy, true);
      }
    }
  }

  method GetAlignmentPatternPositions(version: Version, result: array<byte>) returns (numAlign: nat)
    requires result.Length == 7
    modifies result
    ensures numAlign == NumAlign(version)
    ensures forall i | 0 <= i < numAlign :: result[i] == AlignPos(version, i)
  {
    hide AlignStep, AlignPos;
    if version == 1 { return 0; }
    numAlign := version / 7 + 2;
    StepIs(version);
    var step := if version == 32 then 26 else (version * 4 + numAlign * 2 + 1) / (numAlign * 2 - 2) * 2;
    var i, pos := numAlign - 1, version * 4 + 10;
    AlignShape(version, i);
    while i >= 1
      invariant 0 <= i < numAlign
      invariant i >= 1 ==> pos == AlignPos(version, i)
      invariant forall k | i < k < numAlign :: result[k] == AlignPos(version, k)
    {
      AlignShape(version, i);
      if i >= 2 { AlignNext(version, i); }
      result[i] := pos;
      i, pos := i - 1, pos - step;
    }
    AlignFirst(version);
    result[0] := 6;
  }

  lemma StepIs(v: Version)
    requires v >= 2
    ensures AlignStep(v) == if v == 32 then 26 else (4 * v + NumAlign(v) * 2 + 1) / (NumAlign(v) * 2 - 2) * 2
  {
  }

  lemma AlignNext(v: Version, i: nat)
    requires 2 <= i < NumAlign(v)
    ensures AlignPos(v, i - 1) == AlignPos(v, i) - AlignStep(v)
  {
    assert v >= 2;
    hide AlignStep, NumAlign, FromLast;
    StepBounds(v);
    SpacedPositions(NumAlign(v), i - 1, AlignStep(v));
  }

  lemma SquareIs(v: Version, i: nat, j: nat, x: int, y: int)
    requires i < NumAlign(v) && j < NumAlign(v)
    ensures InRectangle(AlignPos(v, i) - 2, AlignPos(v, j) - 2, 5, 5, x, y) <==> Near(v, x) == i && Near(v, y) == j
  {
    hide AlignPos, Near;
    NearIs(v, x, i);
    NearIs(v, y, j);
  }

  /** The alignment squares that come before (i, j) in the order of the loops. */
  predicate SquareBefore(v: Version, i: int, j: int, x: int, y: int) {
    InAlignment(v, x, y) && (Near(v, x) < i || (Near(v, x) == i && Near(v, y) < j))
  }

  lemma SquareNext(v: Version, i: nat, j: nat, x: int, y: int)
    requires i < NumAlign(v) && j < NumAlign(v)
    ensures SquareBefore(v, i, j + 1, x, y) <==>
            || SquareBefore(v, i, j, x, y)
            || (!Corner(v, i, j) && InRectangle(AlignPos(v, i) - 2, AlignPos(v, j) - 2, 5, 5, x, y))
  {
    hide AlignPos, Near, InRectangle;
    SquareIs(v, i, j, x, y);
  }

  lemma SquareEnds(v: Version, i: nat, x: int, y: int)
    ensures !SquareBefore(v, 0, 0, x, y)
    ensures SquareBefore(v, i, NumAlign(v), x, y) == SquareBefore(v, i + 1, 0, x, y)
    ensures SquareBefore(v, NumAlign(v), 0, x, y) == InAlignment(v, x, y)
  {
    hide AlignPos;
  }

  method FillAlignment(version: Version, qrcode: array<byte>)
    requires Valid(qrcode[..]) && qrcode[0] == Side(version)
    modifies qrcode
    ensures Valid(qrcode[..]) && qrcode[0] == old(qrcode[0])
    ensures forall x, y :: Dark(qrcode[..], x, y) == (InAlignment(version, x, y) || old(Dark(qrcode[..], x, y)))
  {
    hide Dark, AlignPos, InAlignment, SquareBefore, InRectangle;
    var alignPatPos := new byte[7];
    var numAlign := GetAlignmentPatternPositions(version, alignPatPos);
    forall x, y ensures !SquareBefore(version, 0, 0, x, y) { SquareEnds(version, 0, x, y); }
    for i := 0 to numAlign
      invariant Valid(qrcode[..]) && qrcode[0] == old(qrcode[0])
      invariant forall k | 0 <= k < numAlign :: alignPatPos[k] == AlignPos(version, k)
      invariant forall x, y :: Dark(qrcode[..], x, y)
                  == (SquareBefore(version, i, 0, x, y) || old(Dark(qrcode[..], x, y)))
    {
      for j := 0 to numAlign
        invariant Valid(qrcode[..]) && qrcode[0] == old(qrcode[0])
        invariant forall k | 0 <= k < numAlign :: alignPatPos[k] == AlignPos(version, k)
        invariant forall x, y :: Dark(qrcode[..], x, y)
                    == (SquareBefore(version, i, j, x, y) || old(Dark(qrcode[..], x, y)))
      {
        ghost var next := j + 1;
        forall x, y
          ensures SquareBefore(version, i, next, x, y) <==>
                  || SquareBefore(version, i, j, x, y)
                  || (!Corner(version, i, j)
                      && InRectangle(AlignPos(version, i) - 2, AlignPos(version, j) - 2, 5, 5, x, y))
        {
          SquareNext(version, i, j, x, y);
        }
        if !((i == 0 && j == 0) || (i == 0 && j == numAlign - 1) || (i == numAlign - 1 && j == 0)) {
          AlignShape(version, i);
          AlignShape(version, j);
          FillRectangle(alignPatPos[i] - 2, alignPatPos[j] - 2, 5, 5, qrcode);
        }
      }
      ghost var next := i + 1;
      forall x, y ensures SquareBefore(version, i, numAlign, x, y) == SquareBefore(version, next, 0, x, y) {
        SquareEnds(version, i, x, y);
      }
    }
    forall x, y ensures SquareBefore(version, numAlign, 0, x, y) == InAlignment(version, x, y) {
      SquareEnds(version, 0, x, y);
    }
  }

  /** Mark every function module dark, and only those. */
  method InitializeFunctionModules(version: Version, qrcode: array<byte>)
    requires BufferLength(Side(version)) <= qrcode.Length
    modifies qrcode
    ensures Valid(qrcode[..]) && qrcode[0] == Side(version)
    ensures View(qrcode[..]) == FunctionGrid(version)
  {
    hide View, Near, AlignPos, Dark, FunctionGrid;
    var qrsize := version * 4 + 17;
    forall k | 0 <= k < BufferLength(qrsize) { qrcode[k] := 0; }
    qrcode[0] := qrsize;
    Blank(qrcode[..], qrsize);

    FillRectangle(6, 0, 1, qrsize, qrcode);
    FillRectangle(0, 6, qrsize, 1, qrcode);

    FillRectangle(0, 0, 9, 9, qrcode);
    FillRectangle(qrsize - 8, 0, 8, 9, qrcode);
    FillRectangle(0, qrsize - 8, 9, 8, qrcode);

    FillAlignment(version, qrcode);

    if version >= 7 {
      FillRectangle(qrsize - 11, 0, 3, 6, qrcode);
      FillRectangle(0, qrsize - 11, 6, 3, qrcode);
    }
    FunctionView(version, qrcode[..]);
  }

  lemma FunctionView(v: Version, buf: seq<byte>)
    requires Valid(buf) && buf[0] == Side(v)
    requires forall x, y | Inside(Side(v), x, y) :: Dark(buf, x, y) == IsFunction(v, x, y)
    ensures View(buf) == FunctionGrid(v)
  {
    hide IsFunction, Module;
    GridsEqual(View(buf), FunctionGrid(v), Side(v));
  }

  lemma Blank(buf: seq<byte>, n: nat)
    requires 21 <= n <= 177 && BufferLength(n) <= |buf| && buf[0] == n
    requires forall k | 0 < k < BufferLength(n) :: buf[k] == 0
    ensures forall x, y :: !Dark(buf, x, y)
  {
    forall x, y | Inside(n, x, y)
      ensures !Module(buf, x, y)
    {
      InBuffer(n, x, y);
      ZeroBit(Index(n, x, y) % 8);
    }
  }
}
