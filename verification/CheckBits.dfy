/** The check bits of version and format information: linear codes of minimum distance 8 and 7. */
module CheckBits {
  import opened Bitwise
  import opened Tables
  import opened Drawing
  import opened Masking

  // ----- The remainder is linear

  /** A fair generator: it has its top bit just above the register. */
  predicate Register(width: nat, generator: nat) {
    width > 0 && Pow2(width) <= generator < 2 * Pow2(width)
  }

  lemma GatedXor(s: nat, t: nat, generator: nat)
    requires s <= 1 && t <= 1
    ensures Xor(s, t) * generator == Xor(s * generator, t * generator)
  {
    XorSelf(generator);
    XorSelf(1);
    XorSelf(0);
  }

  lemma TopIsBit(r: nat, width: nat)
    requires width > 0 && r < Pow2(width)
    ensures Shr(r, width - 1) <= 1
    ensures Shr(r, width - 1) == 1 <==> r >= Pow2(width - 1)
  {
    ShrBounded(r, width - 1, 1);
    ShrBounded(r, width - 1, 0);
    assert Pow2(1) == 2 && Pow2(0) == 1;
  }

  lemma StepLinear(a: nat, b: nat, width: nat, generator: nat)
    requires Register(width, generator) && a < Pow2(width) && b < Pow2(width)
    ensures Xor(2 * Xor(a, b), Shr(Xor(a, b), width - 1) * generator)
         == Xor(Xor(2 * a, Shr(a, width - 1) * generator), Xor(2 * b, Shr(b, width - 1) * generator))
  {
    hide Xor, Shr;
    var s, t := Shr(a, width - 1), Shr(b, width - 1);
    TopIsBit(a, width);
    TopIsBit(b, width);
    XorShr(a, b, width - 1);
    GatedXor(s, t, generator);
    assert 2 * Xor(a, b) == Xor(2 * a, 2 * b) by { XorHalves(2 * a, 2 * b); }
    XorSwap(2 * a, 2 * b, s * generator, t * generator);
  }

  lemma {:induction false} CyclicLinear(a: nat, b: nat, width: nat, generator: nat, steps: nat)
    requires Register(width, generator) && a < Pow2(width) && b < Pow2(width)
    ensures CyclicRemainder(Xor(a, b), width, generator, steps)
         == Xor(CyclicRemainder(a, width, generator, steps), CyclicRemainder(b, width, generator, steps))
  {
    hide Xor, Shr, CyclicRemainder;
    if steps == 0 {
      CyclicStart(a, width, generator);
      CyclicStart(b, width, generator);
      CyclicStart(Xor(a, b), width, generator);
    } else {
      CyclicLinear(a, b, width, generator, steps - 1);
      CyclicNext(a, width, generator, steps - 1);
      CyclicNext(b, width, generator, steps - 1);
      CyclicNext(Xor(a, b), width, generator, steps - 1);
      CyclicBounded(a, width, generator, steps - 1);
      CyclicBounded(b, width, generator, steps - 1);
      StepLinear(CyclicRemainder(a, width, generator, steps - 1), CyclicRemainder(b, width, generator, steps - 1),
                 width, generator);
    }
  }

  lemma {:induction false} CyclicZero(width: nat, generator: nat, steps: nat)
    requires width > 0
    ensures CyclicRemainder(0, width, generator, steps) == 0
  {
    hide Xor;
    if steps > 0 { CyclicZero(width, generator, steps - 1); }
    ZeroBit(width - 1);
    XorSelf(0);
  }

  lemma {:induction false} CyclicCompose(rem: nat, width: nat, generator: nat, a: nat, b: nat)
    requires width > 0
    ensures CyclicRemainder(CyclicRemainder(rem, width, generator, a), width, generator, b)
         == CyclicRemainder(rem, width, generator, a + b)
  {
    hide Xor, Shr, CyclicRemainder;
    CyclicStart(CyclicRemainder(rem, width, generator, a), width, generator);
    if b > 0 {
      CyclicCompose(rem, width, generator, a, b - 1);
      CyclicNext(CyclicRemainder(rem, width, generator, a), width, generator, b - 1);
      CyclicNext(rem, width, generator, a + b - 1);
    }
  }

  // ----- The remainders of the powers of 2

  lemma ShiftStep(r: nat, width: nat, generator: nat)
    requires Register(width, generator) && r < Pow2(width - 1)
    ensures Xor(2 * r, Shr(r, width - 1) * generator) == 2 * r
  {
    hide Xor, Shr;
    TopIsBit(r, width);
    XorSelf(2 * r);
  }

  lemma ReduceStep(r: nat, width: nat, generator: nat)
    requires Register(width, generator) && Pow2(width - 1) <= r < Pow2(width)
    ensures Xor(2 * r, Shr(r, width - 1) * generator) == Xor(2 * r - Pow2(width), generator - Pow2(width))
  {
    hide Xor, Shr;
    TopIsBit(r, width);
    XorCancelsTop(2 * r, generator, width);
  }

  lemma {:induction false} OneShifts(width: nat, generator: nat, k: nat)
    requires Register(width, generator) && k < width
    ensures CyclicRemainder(1, width, generator, k) == Pow2(k)
  {
    hide Xor, Shr, CyclicRemainder;
    if k == 0 {
      CyclicStart(1, width, generator);
    } else {
      OneShifts(width, generator, k - 1);
      CyclicNext(1, width, generator, k - 1);
      Pow2Below(k - 1, width - 1);
      ShiftStep(Pow2(k - 1), width, generator);
    }
  }

  /** The check bits of a single data bit. */
  lemma BasisIs(width: nat, generator: nat, k: nat)
    requires Register(width, generator) && k < width
    ensures CyclicRemainder(Pow2(k), width, generator, width) == CyclicRemainder(1, width, generator, width + k)
  {
    hide CyclicRemainder;
    OneShifts(width, generator, k);
    CyclicCompose(1, width, generator, k, width);
  }

  lemma XorLow(a: nat, b: nat, u: nat, v: nat)
    requires u == a / 2 && v == b / 2
    ensures Xor(a, b) == 2 * Xor(u, v) + Weight(a % 2 != b % 2)
  {
    hide Xor;
    XorHalves(a, b);
  }

  /** One step of the register that starts from 1. */
  lemma OneNext(width: nat, generator: nat, k: nat, r: nat, next: nat)
    requires Register(width, generator) && r < Pow2(width) && CyclicRemainder(1, width, generator, k) == r
    requires if r < Pow2(width - 1) then next == 2 * r else next == Xor(2 * r - Pow2(width), generator - Pow2(width))
    ensures CyclicRemainder(1, width, generator, k + 1) == next
  {
    hide Xor, Shr, CyclicRemainder;
    CyclicNext(1, width, generator, k);
    if r < Pow2(width - 1) { ShiftStep(r, width, generator); } else { ReduceStep(r, width, generator); }
  }

  lemma FormatXors()
    ensures Xor(0, 311) == 311 && Xor(220, 311) == 491 && Xor(940, 311) == 667
  {
    hide Xor;
    XorSelf(311);
    XorSelf(1);
    XorLow(220, 311, 110, 155); XorLow(110, 155, 55, 77); XorLow(55, 77, 27, 38); XorLow(27, 38, 13, 19);
    XorLow(13, 19, 6, 9); XorLow(6, 9, 3, 4); XorLow(3, 4, 1, 2); XorLow(1, 2, 0, 1);
    XorLow(940, 311, 470, 155); XorLow(470, 155, 235, 77); XorLow(235, 77, 117, 38); XorLow(117, 38, 58, 19);
    XorLow(58, 19, 29, 9); XorLow(29, 9, 14, 4); XorLow(14, 4, 7, 2); XorLow(7, 2, 3, 1); XorLow(3, 1, 1, 0);
  }

  lemma FormatPowers()
    ensures Register(10, 0x537) && Pow2(9) == 512 && Pow2(10) == 1024
  {
  }

  lemma FormatBasis()
    ensures CyclicRemainder(1, 10, 0x537, 10) == 311 && CyclicRemainder(2, 10, 0x537, 10) == 622
    ensures CyclicRemainder(4, 10, 0x537, 10) == 491 && CyclicRemainder(8, 10, 0x537, 10) == 982
    ensures CyclicRemainder(16, 10, 0x537, 10) == 667
  {
    hide Xor, CyclicRemainder, Register;
    FormatPowers();
    FormatXors();
    assert Pow2(0) == 1 && Pow2(1) == 2 && Pow2(2) == 4 && Pow2(3) == 8 && Pow2(4) == 16;
    OneShifts(10, 0x537, 9);
    OneNext(10, 0x537, 9, 512, 311);
    OneNext(10, 0x537, 10, 311, 622);
    OneNext(10, 0x537, 11, 622, 491);
    OneNext(10, 0x537, 12, 491, 982);
    OneNext(10, 0x537, 13, 982, 667);
    BasisIs(10, 0x537, 1);
    BasisIs(10, 0x537, 2);
    BasisIs(10, 0x537, 3);
    BasisIs(10, 0x537, 4);
  }

  lemma VersionXors()
    ensures Xor(0, 3877) == 3877 && Xor(3658, 3877) == 367 && Xor(1776, 3877) == 2517
  {
    hide Xor;
    XorSelf(3877);
    XorSelf(1);
    XorLow(3658, 3877, 1829, 1938); XorLow(1829, 1938, 914, 969); XorLow(914, 969, 457, 484);
    XorLow(457, 484, 228, 242); XorLow(228, 242, 114, 121); XorLow(114, 121, 57, 60); XorLow(57, 60, 28, 30);
    XorLow(28, 30, 14, 15); XorLow(14, 15, 7, 7); XorSelf(7);
    XorLow(1776, 3877, 888, 1938); XorLow(888, 1938, 444, 969); XorLow(444, 969, 222, 484);
    XorLow(222, 484, 111, 242); XorLow(111, 242, 55, 121); XorLow(55, 121, 27, 60); XorLow(27, 60, 13, 30);
    XorLow(13, 30, 6, 15); XorLow(6, 15, 3, 7); XorLow(3, 7, 1, 3); XorLow(1, 3, 0, 1);
  }

  lemma VersionPowers()
    ensures Register(12, 0x1F25) && Pow2(11) == 2048 && Pow2(12) == 4096
  {
  }

  lemma VersionBasis()
    ensures CyclicRemainder(1, 12, 0x1F25, 12) == 3877 && CyclicRemainder(2, 12, 0x1F25, 12) == 367
    ensures CyclicRemainder(4, 12, 0x1F25, 12) == 734 && CyclicRemainder(8, 12, 0x1F25, 12) == 1468
    ensures CyclicRemainder(16, 12, 0x1F25, 12) == 2936 && CyclicRemainder(32, 12, 0x1F25, 12) == 2517
  {
    hide Xor, CyclicRemainder, Register;
    VersionPowers();
    VersionXors();
    assert Pow2(0) == 1 && Pow2(1) == 2 && Pow2(2) == 4 && Pow2(3) == 8 && Pow2(4) == 16 && Pow2(5) == 32;
    OneShifts(12, 0x1F25, 11);
    OneNext(12, 0x1F25, 11, 2048, 3877);
    OneNext(12, 0x1F25, 12, 3877, 367);
    OneNext(12, 0x1F25, 13, 367, 734);
    OneNext(12, 0x1F25, 14, 734, 1468);
    OneNext(12, 0x1F25, 15, 1468, 2936);
    OneNext(12, 0x1F25, 16, 2936, 2517);
    BasisIs(12, 0x1F25, 1);
    BasisIs(12, 0x1F25, 2);
    BasisIs(12, 0x1F25, 3);
    BasisIs(12, 0x1F25, 4);
    BasisIs(12, 0x1F25, 5);
  }

  // ----- Check bits are parities of data bits

  /** Bit i of the check bits that the first k data bits contribute. */
  predicate BasisBit(d: nat, width: nat, generator: nat, k: nat, i: nat)
    requires width > 0
  {
    k > 0 && ((Bit(d, k - 1) && Bit(CyclicRemainder(Pow2(k - 1), width, generator, width), i))
              != BasisBit(d, width, generator, k - 1, i))
  }

  lemma {:induction false} JoinTop(x: nat, k: nat)
    requires x < Pow2(k)
    ensures Xor(Pow2(k), x) == Pow2(k) + x
  {
    hide Xor;
    XorHalves(Pow2(k), x);
    if k > 0 { JoinTop(x / 2, k - 1); } else { XorSelf(1); }
  }

  lemma TopSplit(d: nat, k: nat)
    requires Pow2(k) <= d < Pow2(k + 1)
    ensures var x := d - Pow2(k); x < Pow2(k) && Xor(Pow2(k), x) == d && Bit(d, k)
    ensures forall i: nat | i < k :: Bit(d - Pow2(k), i) == Bit(d, i)
  {
    hide Xor, Bit;
    var x := d - Pow2(k);
    JoinTop(x, k);
    XorBit(Pow2(k), x, k);
    Pow2Bit(k, k);
    HighBit(x, k);
    forall i: nat | i < k
      ensures Bit(x, i) == Bit(d, i)
    {
      XorBit(Pow2(k), x, i);
      Pow2Bit(k, i);
    }
  }

  lemma HighBit(x: nat, k: nat)
    requires x < Pow2(k)
    ensures !Bit(x, k)
  {
    ShrBounded(x, k, 0);
  }

  lemma {:induction false} BasisBitSame(d: nat, x: nat, width: nat, generator: nat, k: nat, i: nat)
    requires width > 0 && forall j: nat | j < k :: Bit(d, j) == Bit(x, j)
    ensures BasisBit(d, width, generator, k, i) == BasisBit(x, width, generator, k, i)
  {
    hide Bit, CyclicRemainder;
    if k > 0 { BasisBitSame(d, x, width, generator, k - 1, i); }
  }

  lemma BasisNext(d: nat, width: nat, generator: nat, k: nat, i: nat)
    requires width > 0
    ensures BasisBit(d, width, generator, k + 1, i)
         == ((Bit(d, k) && Bit(CyclicRemainder(Pow2(k), width, generator, width), i))
             != BasisBit(d, width, generator, k, i))
    ensures !BasisBit(d, width, generator, 0, i)
  {
    hide Bit, CyclicRemainder;
  }

  lemma {:induction false} RemainderBit(d: nat, width: nat, generator: nat, k: nat, i: nat)
    requires Register(width, generator) && k <= width && d < Pow2(k)
    ensures Bit(CyclicRemainder(d, width, generator, width), i) == BasisBit(d, width, generator, k, i)
  {
    hide Bit, Xor, CyclicRemainder, BasisBit, Register;
    if k == 0 {
      WidthPositive(width, generator);
      CyclicZero(width, generator, width);
      NoBit(i);
      BasisNext(d, width, generator, 0, i);
    } else {
      WidthPositive(width, generator);
      BasisNext(d, width, generator, k - 1, i);
      if d < Pow2(k - 1) {
        HighBit(d, k - 1);
        RemainderBit(d, width, generator, k - 1, i);
      } else {
        TopSplit(d, k - 1);
        var p, x := Pow2(k - 1), d - Pow2(k - 1);
        RemainderBit(x, width, generator, k - 1, i);
        BasisBitSame(d, x, width, generator, k - 1, i);
        Pow2Below(k - 1, width);
        CyclicLinear(p, x, width, generator, width);
        XorBit(CyclicRemainder(p, width, generator, width), CyclicRemainder(x, width, generator, width), i);
      }
    }
  }

  lemma WidthPositive(width: nat, generator: nat)
    requires Register(width, generator)
    ensures width > 0
  {
  }

  lemma NoBit(i: nat)
    ensures !Bit(0, i)
  {
    ZeroBit(i);
  }

  /** A bit is a binary digit. */
  lemma Digit(v: nat, i: nat, p: nat)
    requires p == Pow2(i)
    ensures Bit(v, i) <==> v / p % 2 == 1
  {
    hide Shr;
    ShrIs(v, i);
  }

  lemma Bits311(i: nat)
    requires i < 12
    ensures Bit(311, i) <==> i in {0, 1, 2, 4, 5, 8}
  {
    hide Bit, Pow2;
    SmallPowers();
    Digit(311, i, Pow2(i));
    if i < 6 {
      assert i == 0 || i == 1 || i == 2 || i == 3 || i == 4 || i == 5;
    } else {
      assert i == 6 || i == 7 || i == 8 || i == 9 || i == 10 || i == 11;
    }
  }

  lemma Bits622(i: nat)
    requires i < 12
    ensures Bit(622, i) <==> i in {1, 2, 3, 5, 6, 9}
  {
    hide Bit, Pow2;
    SmallPowers();
    Digit(622, i, Pow2(i));
    if i < 6 {
      assert i == 0 || i == 1 || i == 2 || i == 3 || i == 4 || i == 5;
    } else {
      assert i == 6 || i == 7 || i == 8 || i == 9 || i == 10 || i == 11;
    }
  }

  lemma Bits491(i: nat)
    requires i < 12
    ensures Bit(491, i) <==> i in {0, 1, 3, 5, 6, 7, 8}
  {
    hide Bit, Pow2;
    SmallPowers();
    Digit(491, i, Pow2(i));
    if i < 6 {
      assert i == 0 || i == 1 || i == 2 || i == 3 || i == 4 || i == 5;
    } else {
      assert i == 6 || i == 7 || i == 8 || i == 9 || i == 10 || i == 11;
    }
  }

  lemma Bits982(i: nat)
    requires i < 12
    ensures Bit(982, i) <==> i in {1, 2, 4, 6, 7, 8, 9}
  {
    hide Bit, Pow2;
    SmallPowers();
    Digit(982, i, Pow2(i));
    if i < 6 {
      assert i == 0 || i == 1 || i == 2 || i == 3 || i == 4 || i == 5;
    } else {
      assert i == 6 || i == 7 || i == 8 || i == 9 || i == 10 || i == 11;
    }
  }

  lemma Bits667(i: nat)
    requires i < 12
    ensures Bit(667, i) <==> i in {0, 1, 3, 4, 7, 9}
  {
    hide Bit, Pow2;
    SmallPowers();
    Digit(667, i, Pow2(i));
    if i < 6 {
      assert i == 0 || i == 1 || i == 2 || i == 3 || i == 4 || i == 5;
    } else {
      assert i == 6 || i == 7 || i == 8 || i == 9 || i == 10 || i == 11;
    }
  }

  lemma Bits3877(i: nat)
    requires i < 12
    ensures Bit(3877, i) <==> i in {0, 2, 5, 8, 9, 10, 11}
  {
    hide Bit, Pow2;
    SmallPowers();
    Digit(3877, i, Pow2(i));
    if i < 6 {
      assert i == 0 || i == 1 || i == 2 || i == 3 || i == 4 || i == 5;
    } else {
      assert i == 6 || i == 7 || i == 8 || i == 9 || i == 10 || i == 11;
    }
  }

  lemma Bits367(i: nat)
    requires i < 12
    ensures Bit(367, i) <==> i in {0, 1, 2, 3, 5, 6, 8}
  {
    hide Bit, Pow2;
    SmallPowers();
    Digit(367, i, Pow2(i));
    if i < 6 {
      assert i == 0 || i == 1 || i == 2 || i == 3 || i == 4 || i == 5;
    } else {
      assert i == 6 || i == 7 || i == 8 || i == 9 || i == 10 || i == 11;
    }
  }

  lemma Bits734(i: nat)
    requires i < 12
    ensures Bit(734, i) <==> i in {1, 2, 3, 4, 6, 7, 9}
  {
    hide Bit, Pow2;
    SmallPowers();
    Digit(734, i, Pow2(i));
    if i < 6 {
      assert i == 0 || i == 1 || i == 2 || i == 3 || i == 4 || i == 5;
    } else {
      assert i == 6 || i == 7 || i == 8 || i == 9 || i == 10 || i == 11;
    }
  }

  lemma Bits1468(i: nat)
    requires i < 12
    ensures Bit(1468, i) <==> i in {2, 3, 4, 5, 7, 8, 10}
  {
    hide Bit, Pow2;
    SmallPowers();
    Digit(1468, i, Pow2(i));
    if i < 6 {
      assert i == 0 || i == 1 || i == 2 || i == 3 || i == 4 || i == 5;
    } else {
      assert i == 6 || i == 7 || i == 8 || i == 9 || i == 10 || i == 11;
    }
  }

  lemma Bits2936(i: nat)
    requires i < 12
    ensures Bit(2936, i) <==> i in {3, 4, 5, 6, 8, 9, 11}
  {
    hide Bit, Pow2;
    SmallPowers();
    Digit(2936, i, Pow2(i));
    if i < 6 {
      assert i == 0 || i == 1 || i == 2 || i == 3 || i == 4 || i == 5;
    } else {
      assert i == 6 || i == 7 || i == 8 || i == 9 || i == 10 || i == 11;
    }
  }

  lemma Bits2517(i: nat)
    requires i < 12
    ensures Bit(2517, i) <==> i in {0, 2, 4, 6, 7, 8, 11}
  {
    hide Bit, Pow2;
    SmallPowers();
    Digit(2517, i, Pow2(i));
    if i < 6 {
      assert i == 0 || i == 1 || i == 2 || i == 3 || i == 4 || i == 5;
    } else {
      assert i == 6 || i == 7 || i == 8 || i == 9 || i == 10 || i == 11;
    }
  }

  /** The bits of the remainders above, by place. */
  lemma FormatBasisBits(i: nat)
    requires i < 10
    ensures Bit(311, i) <==> i in {0, 1, 2, 4, 5, 8}
    ensures Bit(622, i) <==> i in {1, 2, 3, 5, 6, 9}
    ensures Bit(491, i) <==> i in {0, 1, 3, 5, 6, 7, 8}
    ensures Bit(982, i) <==> i in {1, 2, 4, 6, 7, 8, 9}
    ensures Bit(667, i) <==> i in {0, 1, 3, 4, 7, 9}
  {
    hide Bit;
    Bits311(i); Bits622(i); Bits491(i); Bits982(i); Bits667(i);
  }

  lemma SmallPowers()
    ensures Pow2(0) == 1 && Pow2(1) == 2 && Pow2(2) == 4 && Pow2(3) == 8 && Pow2(4) == 16 && Pow2(5) == 32
    ensures Pow2(6) == 64 && Pow2(7) == 128 && Pow2(8) == 256 && Pow2(9) == 512 && Pow2(10) == 1024 && Pow2(11) == 2048
  {
  }

  lemma VersionBasisBits(i: nat)
    requires i < 12
    ensures Bit(3877, i) <==> i in {0, 2, 5, 8, 9, 10, 11}
    ensures Bit(367, i) <==> i in {0, 1, 2, 3, 5, 6, 8}
    ensures Bit(734, i) <==> i in {1, 2, 3, 4, 6, 7, 9}
    ensures Bit(1468, i) <==> i in {2, 3, 4, 5, 7, 8, 10}
    ensures Bit(2936, i) <==> i in {3, 4, 5, 6, 8, 9, 11}
    ensures Bit(2517, i) <==> i in {0, 2, 4, 6, 7, 8, 11}
  {
    hide Bit;
    Bits3877(i); Bits367(i); Bits734(i); Bits1468(i); Bits2936(i); Bits2517(i);
  }

  /** Up to six data bits. */
  datatype Data = Data(d0: bool, d1: bool, d2: bool, d3: bool, d4: bool, d5: bool)

  function DataOf(d: nat): Data {
    Data(Bit(d, 0), Bit(d, 1), Bit(d, 2), Bit(d, 3), Bit(d, 4), Bit(d, 5))
  }

  /** Check bit i of five data bits. */
  predicate FormatParity(x: Data, i: nat)
    requires i < 10
  {
    match i
    case 0 => (x.d0 != x.d2) != x.d4
    case 1 => (((x.d0 != x.d1) != x.d2) != x.d3) != x.d4
    case 2 => (x.d0 != x.d1) != x.d3
    case 3 => (x.d1 != x.d2) != x.d4
    case 4 => (x.d0 != x.d3) != x.d4
    case 5 => (x.d0 != x.d1) != x.d2
    case 6 => (x.d1 != x.d2) != x.d3
    case 7 => (x.d2 != x.d3) != x.d4
    case 8 => (x.d0 != x.d2) != x.d3
    case 9 => (x.d1 != x.d3) != x.d4
  }

  /** Check bit i of six data bits. */
  predicate VersionParity(x: Data, i: nat)
    requires i < 12
  {
    match i
    case 0 => (x.d0 != x.d1) != x.d5
    case 1 => x.d1 != x.d2
    case 2 => (((x.d0 != x.d1) != x.d2) != x.d3) != x.d5
    case 3 => ((x.d1 != x.d2) != x.d3) != x.d4
    case 4 => ((x.d2 != x.d3) != x.d4) != x.d5
    case 5 => ((x.d0 != x.d1) != x.d3) != x.d4
    case 6 => ((x.d1 != x.d2) != x.d4) != x.d5
    case 7 => (x.d2 != x.d3) != x.d5
    case 8 => (((x.d0 != x.d1) != x.d3) != x.d4) != x.d5
    case 9 => (x.d0 != x.d2) != x.d4
    case 10 => x.d0 != x.d3
    case 11 => (x.d0 != x.d4) != x.d5
  }

  /** Every check bit of the format information is the parity of the same data bits. */
  lemma FormatCheckBits(d: nat, i: nat)
    requires d < 32 && i < 10
    ensures Bit(CyclicRemainder(d, 10, 0x537, 10), i) == FormatParity(DataOf(d), i)
  {
    hide Bit, CyclicRemainder, BasisBit, Register;
    FormatPowers();
    SmallPowers();
    RemainderBit(d, 10, 0x537, 5, i);
    FormatBasis();
    FormatBasisBits(i);
    BasisNext(d, 10, 0x537, 4, i);
    BasisNext(d, 10, 0x537, 3, i);
    BasisNext(d, 10, 0x537, 2, i);
    BasisNext(d, 10, 0x537, 1, i);
    BasisNext(d, 10, 0x537, 0, i);
  }

  /** Every check bit of the version information is the parity of the same data bits. */
  lemma VersionCheckBits(d: nat, i: nat)
    requires d < 64 && i < 12
    ensures Bit(CyclicRemainder(d, 12, 0x1F25, 12), i) == VersionParity(DataOf(d), i)
  {
    hide Bit, CyclicRemainder, BasisBit, Register;
    VersionPowers();
    SmallPowers();
    RemainderBit(d, 12, 0x1F25, 6, i);
    VersionBasis();
    VersionBasisBits(i);
    BasisNext(d, 12, 0x1F25, 5, i);
    BasisNext(d, 12, 0x1F25, 4, i);
    BasisNext(d, 12, 0x1F25, 3, i);
    BasisNext(d, 12, 0x1F25, 2, i);
    BasisNext(d, 12, 0x1F25, 1, i);
    BasisNext(d, 12, 0x1F25, 0, i);
  }

  // ----- The complete words

  lemma {:induction false} ShiftedBit(d: nat, k: nat, i: nat)
    ensures Bit(d * Pow2(k), i) == (i >= k && Bit(d, i - k))
  {
    hide Shr;
    var v := d * Pow2(k);
    if k == 0 {
    } else if i == 0 {
      assert v == 2 * (d * Pow2(k - 1));
      ShrZero(v);
    } else {
      assert v == 2 * (d * Pow2(k - 1));
      BitBelow(v, i);
      ShiftedBit(d, k - 1, i - 1);
    }
  }

  lemma BitBelow(v: nat, i: nat)
    requires i > 0
    ensures Bit(v, i) == Bit(v / 2, i - 1)
  {
  }

  /** Data bits above, check bits below. */
  lemma JoinedBit(d: nat, rem: nat, width: nat, i: nat)
    requires rem < Pow2(width)
    ensures Bit(Or(d * Pow2(width), rem), i) == if i < width then Bit(rem, i) else Bit(d, i - width)
  {
    hide Or, Bit;
    OrBit(d * Pow2(width), rem, i);
    ShiftedBit(d, width, i);
    if i >= width {
      RisesUpTo(width, i);
      HighBit(rem, i);
    }
  }

  lemma RisesUpTo(a: nat, b: nat)
    requires a <= b
    ensures Pow2(a) <= Pow2(b)
  {
    if a < b { Pow2Below(a, b); }
  }

  lemma MaskBits(i: nat)
    requires i < 15
    ensures Bit(0x5412, i) <==> i in {1, 4, 10, 12, 14}
  {
    hide Bit, Pow2;
    SmallPowers();
    LargerPowers();
    Digit(0x5412, i, Pow2(i));
    if i < 8 {
      assert i == 0 || i == 1 || i == 2 || i == 3 || i == 4 || i == 5 || i == 6 || i == 7;
    } else {
      assert i == 8 || i == 9 || i == 10 || i == 11 || i == 12 || i == 13 || i == 14;
    }
  }

  lemma LargerPowers()
    ensures Pow2(12) == 4096 && Pow2(13) == 8192 && Pow2(14) == 16384
  {
  }

  /** The word of some data bits with their check bits below. */
  function Word(d: nat, width: nat, generator: nat): nat
    requires width > 0
  {
    Or(d * Pow2(width), CyclicRemainder(d, width, generator, width))
  }

  lemma WordBit(d: nat, width: nat, generator: nat, i: nat)
    requires Register(width, generator) && d < Pow2(width)
    ensures Bit(Word(d, width, generator), i)
         == if i < width then Bit(CyclicRemainder(d, width, generator, width), i) else Bit(d, i - width)
  {
    hide Bit, Or, CyclicRemainder;
    CyclicBounded(d, width, generator, width);
    JoinedBit(d, CyclicRemainder(d, width, generator, width), width, i);
  }

  lemma WordsAre(v: Version, ecl: Ecc, m: Mask)
    ensures VersionBits(v) == Word(v, 12, 0x1F25) && v < 64
    ensures FormatBits(ecl, m) == Xor(Word(FormatData(ecl, m), 10, 0x537), 0x5412) && FormatData(ecl, m) < 32
  {
    hide Or, Xor, CyclicRemainder, FormatData;
    FormatPowers();
    VersionPowers();
  }

  /** Bit i of the format word: ten parities, and the five data bits above them. */
  predicate FormatWordBit(x: Data, i: nat)
    requires i < 15
  {
    if i < 10 then FormatParity(x, i)
    else if i == 10 then x.d0 else if i == 11 then x.d1 else if i == 12 then x.d2 else if i == 13 then x.d3 else x.d4
  }

  /** Bit i of the version word: twelve parities, and the six data bits above them. */
  predicate VersionWordBit(x: Data, i: nat)
    requires i < 18
  {
    if i < 12 then VersionParity(x, i)
    else if i == 12 then x.d0 else if i == 13 then x.d1 else if i == 14 then x.d2
    else if i == 15 then x.d3 else if i == 16 then x.d4 else x.d5
  }

  lemma FormatWordIs(d: nat, i: nat)
    requires d < 32 && i < 15
    ensures Bit(Word(d, 10, 0x537), i) == FormatWordBit(DataOf(d), i)
  {
    hide Bit, CyclicRemainder, FormatParity, Word, Register;
    FormatPowers();
    WordBit(d, 10, 0x537, i);
    if i < 10 { FormatCheckBits(d, i); }
  }

  lemma VersionWordIs(d: nat, i: nat)
    requires d < 64 && i < 18
    ensures Bit(Word(d, 12, 0x1F25), i) == VersionWordBit(DataOf(d), i)
  {
    hide Bit, CyclicRemainder, VersionParity, Word, Register;
    VersionPowers();
    WordBit(d, 12, 0x1F25, i);
    if i < 12 { VersionCheckBits(d, i); }
  }

  /** The format information bit by bit: five of the fifteen bits of the word are inverted. */
  lemma FormatBitIs(ecl: Ecc, m: Mask, i: nat)
    requires i < 15
    ensures Bit(FormatBits(ecl, m), i) == (FormatWordBit(DataOf(FormatData(ecl, m)), i) != (i in {1, 4, 10, 12, 14}))
  {
    hide Bit, Xor, FormatBits, FormatWordBit, FormatData, DataOf, Word;
    var d := FormatData(ecl, m);
    WordsAre(1, ecl, m);
    FormatWordIs(d, i);
    XorBit(Word(d, 10, 0x537), 0x5412, i);
    MaskBits(i);
  }

  /** The version information bit by bit. */
  lemma VersionBitIs(v: Version, i: nat)
    requires i < 18
    ensures Bit(VersionBits(v), i) == VersionWordBit(DataOf(v), i)
  {
    hide Bit, VersionBits, FormatBits, FormatData, VersionWordBit, DataOf, Word;
    WordsAre(v, 0, 0);
    VersionWordIs(v, i);
  }

  // ----- Distance

  function One(b: bool): nat {
    if b then 1 else 0
  }

  /** The number of the first k bits in which two words differ. */
  function Differences(a: nat, b: nat, k: nat): nat {
    if k == 0 then 0 else Differences(a, b, k - 1) + One(Bit(a, k - 1) != Bit(b, k - 1))
  }

  /** The number of ones among the first k bits. */
  function Ones(a: nat, k: nat): nat {
    if k == 0 then 0 else Ones(a, k - 1) + One(Bit(a, k - 1))
  }

  lemma {:induction false} SameOnes(a: nat, b: nat, w: nat, k: nat)
    requires forall i: nat | i < k :: (Bit(a, i) != Bit(b, i)) == Bit(w, i)
    ensures Differences(a, b, k) == Ones(w, k)
  {
    hide Bit;
    if k > 0 { SameOnes(a, b, w, k - 1); }
  }

  /** Words add up: where those of d and e differ, that of their sum has a one. */
  lemma WordLinear(d: nat, e: nat, width: nat, generator: nat, i: nat)
    requires Register(width, generator) && d < Pow2(width) && e < Pow2(width)
    ensures (Bit(Word(d, width, generator), i) != Bit(Word(e, width, generator), i))
         == Bit(Word(Xor(d, e), width, generator), i)
  {
    hide Bit, Xor, CyclicRemainder, Word;
    Bounded(d, e, width);
    WordBit(d, width, generator, i);
    WordBit(e, width, generator, i);
    WordBit(Xor(d, e), width, generator, i);
    CyclicLinear(d, e, width, generator, width);
    if i < width {
      XorBit(CyclicRemainder(d, width, generator, width), CyclicRemainder(e, width, generator, width), i);
    } else {
      XorBit(d, e, i - width);
    }
  }

  function FormatWeight(x: Data, k: nat): nat
    requires k <= 15
  {
    if k == 0 then 0 else FormatWeight(x, k - 1) + One(FormatWordBit(x, k - 1))
  }

  lemma {:induction false} FormatOnes(d: nat, x: Data, k: nat)
    requires d < 32 && x == DataOf(d) && k <= 15
    ensures Ones(Word(d, 10, 0x537), k) == FormatWeight(x, k)
  {
    hide Bit, Word, FormatWordBit, DataOf;
    if k > 0 {
      FormatOnes(d, x, k - 1);
      FormatWordIs(d, k - 1);
    }
  }

  lemma FormatWeightNext(x: Data, k: nat)
    requires k < 15
    ensures FormatWeight(x, k + 1) == FormatWeight(x, k) + One(FormatWordBit(x, k))
    ensures FormatWeight(x, 0) == 0
  {
    hide FormatWordBit, One;
  }

  lemma FormatWeightSum0(x: Data)
    ensures FormatWeight(x, 5)
         == One(FormatWordBit(x, 0)) + One(FormatWordBit(x, 1)) + One(FormatWordBit(x, 2))
            + One(FormatWordBit(x, 3)) + One(FormatWordBit(x, 4))
  {
    hide *;
    FormatWeightNext(x, 0); FormatWeightNext(x, 1); FormatWeightNext(x, 2);
    FormatWeightNext(x, 3); FormatWeightNext(x, 4);
  }

  lemma FormatWeightSum5(x: Data)
    ensures FormatWeight(x, 10)
         == FormatWeight(x, 5) + One(FormatWordBit(x, 5)) + One(FormatWordBit(x, 6)) + One(FormatWordBit(x, 7))
            + One(FormatWordBit(x, 8)) + One(FormatWordBit(x, 9))
  {
    hide *;
    FormatWeightNext(x, 5); FormatWeightNext(x, 6); FormatWeightNext(x, 7);
    FormatWeightNext(x, 8); FormatWeightNext(x, 9);
  }

  lemma FormatWeightSum10(x: Data)
    ensures FormatWeight(x, 15)
         == FormatWeight(x, 10) + One(FormatWordBit(x, 10)) + One(FormatWordBit(x, 11)) + One(FormatWordBit(x, 12))
            + One(FormatWordBit(x, 13)) + One(FormatWordBit(x, 14))
  {
    hide *;
    FormatWeightNext(x, 10); FormatWeightNext(x, 11); FormatWeightNext(x, 12);
    FormatWeightNext(x, 13); FormatWeightNext(x, 14);
  }

  /** Every format word but zero has at least seven ones. */
  lemma FormatHeavy(x: Data)
    requires x.d0 || x.d1 || x.d2 || x.d3 || x.d4
    ensures FormatWeight(x, 15) >= 7
  {
    hide FormatWeight;
    FormatWeightSum0(x);
    FormatWeightSum5(x);
    FormatWeightSum10(x);
  }

  function VersionWeight(x: Data, k: nat): nat
    requires k <= 18
  {
    if k == 0 then 0 else VersionWeight(x, k - 1) + One(VersionWordBit(x, k - 1))
  }

  lemma {:induction false} VersionOnes(d: nat, x: Data, k: nat)
    requires d < 64 && x == DataOf(d) && k <= 18
    ensures Ones(Word(d, 12, 0x1F25), k) == VersionWeight(x, k)
  {
    hide Bit, Word, VersionWordBit, DataOf;
    if k > 0 {
      VersionOnes(d, x, k - 1);
      VersionWordIs(d, k - 1);
    }
  }

  lemma VersionWeightNext(x: Data, k: nat)
    requires k < 18
    ensures VersionWeight(x, k + 1) == VersionWeight(x, k) + One(VersionWordBit(x, k))
    ensures VersionWeight(x, 0) == 0
  {
    hide VersionWordBit, One;
  }

  lemma VersionWeightSum0(x: Data)
    ensures VersionWeight(x, 6)
         == One(VersionWordBit(x, 0)) + One(VersionWordBit(x, 1)) + One(VersionWordBit(x, 2))
            + One(VersionWordBit(x, 3)) + One(VersionWordBit(x, 4)) + One(VersionWordBit(x, 5))
  {
    hide *;
    VersionWeightNext(x, 0); VersionWeightNext(x, 1); VersionWeightNext(x, 2);
    VersionWeightNext(x, 3); VersionWeightNext(x, 4); VersionWeightNext(x, 5);
  }

  lemma VersionWeightSum6(x: Data)
    ensures VersionWeight(x, 12)
         == VersionWeight(x, 6) + One(VersionWordBit(x, 6)) + One(VersionWordBit(x, 7)) + One(VersionWordBit(x, 8))
            + One(VersionWordBit(x, 9)) + One(VersionWordBit(x, 10)) + One(VersionWordBit(x, 11))
  {
    hide *;
    VersionWeightNext(x, 6); VersionWeightNext(x, 7); VersionWeightNext(x, 8);
    VersionWeightNext(x, 9); VersionWeightNext(x, 10); VersionWeightNext(x, 11);
  }

  lemma VersionWeightSum12(x: Data)
    ensures VersionWeight(x, 18)
         == VersionWeight(x, 12) + One(VersionWordBit(x, 12)) + One(VersionWordBit(x, 13)) + One(VersionWordBit(x, 14))
            + One(VersionWordBit(x, 15)) + One(VersionWordBit(x, 16)) + One(VersionWordBit(x, 17))
  {
    hide *;
    VersionWeightNext(x, 12); VersionWeightNext(x, 13); VersionWeightNext(x, 14);
    VersionWeightNext(x, 15); VersionWeightNext(x, 16); VersionWeightNext(x, 17);
  }

  /** Every version word but zero has at least eight ones. */
  lemma VersionHeavy(x: Data)
    requires x.d0 || x.d1 || x.d2 || x.d3 || x.d4 || x.d5
    ensures VersionWeight(x, 18) >= 8
  {
    hide VersionWeight;
    VersionWeightSum0(x);
    VersionWeightSum6(x);
    VersionWeightSum12(x);
  }

  lemma NonZeroBits(d: nat, k: nat)
    requires 0 < d < Pow2(k) && k <= 6
    ensures exists i: nat | i < k :: Bit(d, i)
  {
    hide Bit;
    if forall i: nat | i < k :: !Bit(d, i) {
      forall i: nat | i < k ensures Bit(d, i) == Bit(0, i) { NoBit(i); }
      BitsDetermine(d, 0, k);
    }
  }

  lemma FirstPlaces(i: nat)
    requires i < 6
    ensures i in {0, 1, 2, 3, 4, 5}
  {
  }

  lemma SomeData(d: nat, x: Data)
    requires 0 < d < 64 && x == DataOf(d)
    ensures x.d0 || x.d1 || x.d2 || x.d3 || x.d4 || x.d5
    ensures d < 32 ==> x.d0 || x.d1 || x.d2 || x.d3 || x.d4
  {
    hide Bit;
    SmallPowers();
    NonZeroBits(d, 6);
    var i: nat :| i < 6 && Bit(d, i);
    FirstPlaces(i);
    if d < 32 { HighBit(d, 5); }
  }

  lemma XorNotZero(d: nat, e: nat)
    requires d != e
    ensures Xor(d, e) != 0
  {
    hide Xor;
    XorAssociates(d, e, e);
    XorSelf(e);
    XorSelf(d);
  }

  lemma FormatDataInjective(ecl: Ecc, m: Mask, ecl': Ecc, m': Mask)
    requires FormatData(ecl, m) == FormatData(ecl', m')
    ensures ecl == ecl' && m == m'
  {
  }

  /** The format information of different levels or masks differs in at least seven of its fifteen bits. */
  lemma FormatDistance(ecl: Ecc, m: Mask, ecl': Ecc, m': Mask)
    requires ecl != ecl' || m != m'
    ensures Differences(FormatBits(ecl, m), FormatBits(ecl', m'), 15) >= 7
  {
    hide Bit, Xor, Word, FormatBits, VersionBits, FormatData, Differences, Ones, FormatWeight, Register, DataOf;
    var d, e := FormatData(ecl, m), FormatData(ecl', m');
    if d == e { FormatDataInjective(ecl, m, ecl', m'); }
    WordsAre(1, ecl, m);
    WordsAre(1, ecl', m');
    FormatPowers();
    SmallPowers();
    var x := Xor(d, e);
    XorNotZero(d, e);
    Bounded(d, e, 5);
    forall i: nat | i < 15
      ensures (Bit(FormatBits(ecl, m), i) != Bit(FormatBits(ecl', m'), i)) == Bit(Word(x, 10, 0x537), i)
    {
      WordLinear(d, e, 10, 0x537, i);
      XorBit(Word(d, 10, 0x537), 0x5412, i);
      XorBit(Word(e, 10, 0x537), 0x5412, i);
    }
    SameOnes(FormatBits(ecl, m), FormatBits(ecl', m'), Word(x, 10, 0x537), 15);
    FormatOnes(x, DataOf(x), 15);
    SomeData(x, DataOf(x));
    FormatHeavy(DataOf(x));
  }

  /** The version information of different versions differs in at least eight of its eighteen bits. */
  lemma VersionDistance(v: Version, w: Version)
    requires v != w
    ensures Differences(VersionBits(v), VersionBits(w), 18) >= 8
  {
    hide Bit, Xor, Word, FormatBits, VersionBits, FormatData, Differences, Ones, VersionWeight, Register, DataOf;
    WordsAre(v, 0, 0);
    WordsAre(w, 0, 0);
    VersionPowers();
    SmallPowers();
    var x := Xor(v, w);
    XorNotZero(v, w);
    assert Pow2(6) == 64;
    Bounded(v, w, 6);
    forall i: nat | i < 18
      ensures (Bit(VersionBits(v), i) != Bit(VersionBits(w), i)) == Bit(Word(x, 12, 0x1F25), i)
    {
      WordLinear(v, w, 12, 0x1F25, i);
    }
    SameOnes(VersionBits(v), VersionBits(w), Word(x, 12, 0x1F25), 18);
    VersionOnes(x, DataOf(x), 18);
    SomeData(x, DataOf(x));
    VersionHeavy(DataOf(x));
  }
}
