/**
 The field of 256 elements that Reed-Solomon coding works in: bytes are polynomials over
 the two-element field modulo x^8 + x^4 + x^3 + x^2 + 1, written 0x11D.
 */
module Field {
  import opened Bitwise

  function Add(a: byte, b: byte): byte {
    Bounded(a, b, 8);
    Xor(a, b)
  }

  /** Bit 7 of a byte, as a number. */
  function Top(z: byte): (t: nat)
    ensures t == Weight(z >= 128)
  {
    ShrBounded(z, 7, 1);
    ShrBounded(z, 7, 0);
    assert Pow2(8) == 256 && Pow2(7) == 128;
    Shr(z, 7)
  }

  /** Multiplication by the element 2: shift left, and reduce when bit 8 appears. */
  function Double(z: byte): byte {
    DoubleBounded(z);
    Xor(2 * z, Top(z) * 0x11D)
  }

  lemma DoubleBounded(z: byte)
    ensures Xor(2 * z, Top(z) * 0x11D) < 256
  {
    hide Xor;
    assert Pow2(8) == 256;
    if z >= 128 {
      XorCancelsTop(2 * z, 0x11D, 8);
    } else {
      XorSelf(2 * z);
    }
  }

  function Gate(x: byte, b: bool): byte {
    if b then x else 0
  }

  /** The product of x with the number formed by the i most significant bits of y. */
  function MulBits(x: byte, y: byte, i: nat): byte
    requires i <= 8
  {
    if i == 0 then 0 else Add(Double(MulBits(x, y, i - 1)), Gate(x, Bit(y, 8 - i)))
  }

  function Mul(x: byte, y: byte): byte {
    MulBits(x, y, 8)
  }

  /** One turn of the multiplication loop, in the operators the loop uses. */
  lemma MulStep(x: byte, y: byte, i: nat)
    requires i < 8
    ensures var z := MulBits(x, y, i);
            var d := Xor(2 * z, Shr(z, 7) * 0x11D);
            && d < 256
            && Xor(d, Shr(y, 7 - i) % 2 * x) == MulBits(x, y, i + 1)
  {
    hide Xor;
    DoubleBounded(MulBits(x, y, i));
  }

  /** Russian peasant multiplication, from the most significant bit of y down. */
  method Multiply(x: byte, y: byte) returns (z: byte)
    ensures z == Mul(x, y)
  {
    hide MulBits;
    z := 0;
    assert MulBits(x, y, 0) == 0 by { MulZeroBits(x, y); }
    var i := 7;
    while i >= 0
      invariant -1 <= i <= 7
      invariant z == MulBits(x, y, 7 - i)
    {
      MulStep(x, y, 7 - i);
      z := Xor(2 * z, Shr(z, 7) * 0x11D);
      z := Xor(z, Shr(y, i) % 2 * x);
      i := i - 1;
    }
  }

  lemma MulZeroBits(x: byte, y: byte)
    ensures MulBits(x, y, 0) == 0
  {
  }

  // ----- Addition is a group, doubling and multiplication are linear

  lemma AddLaws(a: byte, b: byte, c: byte)
    ensures Add(a, b) == Add(b, a)
    ensures Add(Add(a, b), c) == Add(a, Add(b, c))
    ensures Add(a, a) == 0 && Add(a, 0) == a && Add(0, a) == a
  {
    hide Xor;
    XorCommutes(a, b);
    XorAssociates(a, b, c);
    XorSelf(a);
  }

  lemma AddSwap(a: byte, b: byte, c: byte, d: byte)
    ensures Add(Add(a, b), Add(c, d)) == Add(Add(a, c), Add(b, d))
  {
    hide Xor;
    XorSwap(a, b, c, d);
  }

  /** Equal sums: moving a term to the other side. */
  lemma AddCancels(a: byte, b: byte)
    ensures Add(a, b) == 0 <==> a == b
    ensures Add(Add(a, b), b) == a
  {
    hide Add;
    AddLaws(a, b, b);
    AddLaws(b, b, a);
    AddLaws(a, 0, 0);
    if Add(a, b) == 0 { AddLaws(b, 0, 0); }
  }

  lemma DoubleAdd(a: byte, b: byte)
    ensures Double(Add(a, b)) == Add(Double(a), Double(b))
  {
    hide Xor;
    var s, t := Top(a), Top(b);
    assert Top(Add(a, b)) == Xor(s, t) by { XorShr(a, b, 7); }
    assert Xor(s, t) * 0x11D == Xor(s * 0x11D, t * 0x11D) by { XorSelf(0x11D); XorSelf(1); XorSelf(0); }
    assert 2 * Xor(a, b) == Xor(2 * a, 2 * b) by { XorHalves(2 * a, 2 * b); }
    XorSwap(2 * a, 2 * b, s * 0x11D, t * 0x11D);
  }

  lemma DoubleZero()
    ensures Double(0) == 0
  {
    hide Xor;
    XorSelf(0);
  }

  lemma {:induction false} MulBitsLeft(x: byte, w: byte, y: byte, i: nat)
    requires i <= 8
    ensures MulBits(Add(x, w), y, i) == Add(MulBits(x, y, i), MulBits(w, y, i))
  {
    hide Add, Double, Bit;
    AddLaws(0, 0, 0);
    if i > 0 {
      MulBitsLeft(x, w, y, i - 1);
      var a, b, t := MulBits(x, y, i - 1), MulBits(w, y, i - 1), Bit(y, 8 - i);
      DoubleAdd(a, b);
      AddSwap(Double(a), Double(b), Gate(x, t), Gate(w, t));
    }
  }

  lemma {:induction false} MulBitsRight(x: byte, y: byte, w: byte, i: nat)
    requires i <= 8
    ensures MulBits(x, Add(y, w), i) == Add(MulBits(x, y, i), MulBits(x, w, i))
  {
    hide Add, Double, Bit;
    AddLaws(0, 0, 0);
    if i > 0 {
      MulBitsRight(x, y, w, i - 1);
      var a, b, s, t := MulBits(x, y, i - 1), MulBits(x, w, i - 1), Bit(y, 8 - i), Bit(w, 8 - i);
      DoubleAdd(a, b);
      AddBit(y, w, 8 - i);
      AddLaws(x, 0, 0);
      AddSwap(Double(a), Double(b), Gate(x, s), Gate(x, t));
    }
  }

  lemma AddBit(y: byte, w: byte, i: nat)
    ensures Bit(Add(y, w), i) == (Bit(y, i) != Bit(w, i))
  {
    hide Xor, Bit;
    XorBit(y, w, i);
  }

  lemma {:induction false} MulBitsDouble(x: byte, y: byte, i: nat)
    requires i <= 8
    ensures MulBits(Double(x), y, i) == Double(MulBits(x, y, i))
  {
    hide Add, Double, Bit;
    DoubleZero();
    if i > 0 {
      MulBitsDouble(x, y, i - 1);
      DoubleAdd(Double(MulBits(x, y, i - 1)), Gate(x, Bit(y, 8 - i)));
    }
  }

  lemma Distributes(x: byte, w: byte, y: byte)
    ensures Mul(Add(x, w), y) == Add(Mul(x, y), Mul(w, y))
    ensures Mul(y, Add(x, w)) == Add(Mul(y, x), Mul(y, w))
  {
    hide MulBits, Add;
    MulBitsLeft(x, w, y, 8);
    MulBitsRight(y, x, w, 8);
  }

  lemma MulZero(x: byte)
    ensures Mul(0, x) == 0 && Mul(x, 0) == 0
  {
    hide Mul, Add;
    Distributes(x, x, x);
    AddLaws(x, 0, 0);
    AddLaws(Mul(x, x), 0, 0);
  }

  // ----- Multiplication is commutative and associative, with unit 1

  /** z doubled n times. */
  function Doubles(z: byte, n: nat): byte {
    if n == 0 then z else Double(Doubles(z, n - 1))
  }

  lemma {:induction false} MulBitsPow2(x: byte, k: nat, i: nat)
    requires k < 8 && i <= 8 && Pow2(k) < 256
    ensures MulBits(x, Pow2(k), i) == if i < 8 - k then 0 else Doubles(x, i + k - 8)
  {
    hide Add, Double, Bit;
    DoubleZero();
    if i > 0 {
      MulBitsPow2(x, k, i - 1);
      Pow2Bit(k, 8 - i);
      AddLaws(x, 0, 0);
      AddLaws(Double(MulBits(x, Pow2(k), i - 1)), 0, 0);
      AddLaws(0, 0, 0);
    }
  }

  lemma {:induction false} DoublesMul(x: byte, y: byte, n: nat)
    ensures Mul(Doubles(x, n), y) == Doubles(Mul(x, y), n)
  {
    hide MulBits, Double;
    if n > 0 {
      DoublesMul(x, y, n - 1);
      MulBitsDouble(Doubles(x, n - 1), y, 8);
    }
  }

  lemma {:induction false} MulOneBits(y: byte, i: nat)
    requires i <= 8
    ensures MulBits(1, y, i) == Shr(y, 8 - i)
  {
    hide Add, Double, Bit, Shr;
    ShrBounded(y, 8 - i, i);
    assert Pow2(8) == 256 && Pow2(0) == 1;
    if i > 0 {
      MulOneBits(y, i - 1);
      ShrSplit(y, 8 - i);
      var s := Shr(y, 9 - i);
      ShrBounded(y, 9 - i, 7);
      assert Pow2(16 - i) == 2 * Pow2(15 - i);
      Pow2Monotone(8, 16 - i);
      assert Pow2(7) == 128;
      DoubleShifts(s);
      AddLow(s, Bit(y, 8 - i));
    }
  }

  lemma {:induction false} Pow2Monotone(a: nat, b: nat)
    requires a <= b
    ensures Pow2(a) <= Pow2(b)
  {
    if a < b { Pow2Monotone(a, b - 1); }
  }

  lemma DoubleShifts(z: byte)
    requires z < 128
    ensures Double(z) == 2 * z
  {
    hide Xor;
    XorSelf(2 * z);
  }

  lemma AddLow(s: byte, b: bool)
    requires s < 128
    ensures Add(2 * s, Gate(1, b)) == 2 * s + Weight(b)
  {
    XorSelf(2 * s);
    XorSelf(s);
  }

  lemma MulOne(x: byte)
    ensures Mul(1, x) == x && Mul(x, 1) == x
  {
    hide MulBits;
    MulOneBits(x, 8);
    MulBitsPow2(x, 0, 8);
  }

  /** The sum of the multiples x * 2^i for the set bits i < k of y. */
  function SumOfShifts(x: byte, y: byte, k: nat): byte {
    if k == 0 then 0 else Add(SumOfShifts(x, y, k - 1), Gate(Doubles(x, k - 1), Bit(y, k - 1)))
  }

  lemma {:induction false} SumOfLowBits(x: byte, y: byte, w: byte, k: nat)
    requires forall i: nat | i < k :: Bit(y, i) == Bit(w, i)
    ensures SumOfShifts(x, y, k) == SumOfShifts(x, w, k)
  {
    if k > 0 { SumOfLowBits(x, y, w, k - 1); }
  }

  /** Below the k-th power of 2, the product is the sum of shifts; the top bit splits off. */
  lemma {:induction false} ProductBelow(x: byte, y: byte, k: nat)
    requires k <= 8 && y < Pow2(k)
    ensures Mul(x, y) == SumOfShifts(x, y, k)
  {
    hide Mul, Double, Doubles, Bit, Add;
    MulZero(x);
    if k > 0 {
      var p := Pow2(k - 1);
      ShrBounded(y, k - 1, 0);
      ShrBounded(y, k - 1, 1);
      TopBit(y, k - 1);
      if y < p {
        ProductBelow(x, y, k - 1);
        AddLaws(SumOfShifts(x, y, k - 1), 0, 0);
      } else {
        assert p <= Pow2(7) == 128 by { Pow2Monotone(k - 1, 7); }
        var w := Add(p, y);
        LowBits(y, k - 1);
        ProductBelow(x, w, k - 1);
        SumOfLowBits(x, y, w, k - 1);
        AddLaws(p, y, 0);
        AddCancels(y, p);
        Distributes(w, p, x);
        ProductWithPow2(x, k - 1);
      }
    }
  }

  lemma TopBit(y: byte, k: nat)
    requires y < Pow2(k + 1)
    ensures Bit(y, k) <==> y >= Pow2(k)
  {
    ShrBounded(y, k, 0);
    ShrBounded(y, k, 1);
    assert Pow2(0) == 1 && Pow2(1) == 2;
  }

  /** Clearing the top bit leaves the bits below it. */
  lemma LowBits(y: byte, k: nat)
    requires k < 8 && Pow2(k) <= y < Pow2(k + 1) && Pow2(k) < 256
    ensures Add(Pow2(k), y) < Pow2(k)
    ensures forall i: nat | i < k :: Bit(Add(Pow2(k), y), i) == Bit(y, i)
  {
    hide Xor, Bit;
    XorCancelsTop(Pow2(k), y, k);
    forall i: nat | i < k
      ensures Bit(Xor(Pow2(k), y), i) == Bit(y, i)
    {
      XorBit(Pow2(k), y, i);
      Pow2Bit(k, i);
    }
  }

  lemma ProductWithPow2(x: byte, k: nat)
    requires k < 8 && Pow2(k) < 256
    ensures Mul(x, Pow2(k)) == Doubles(x, k)
  {
    hide MulBits, Double;
    MulBitsPow2(x, k, 8);
  }

  /** The product is the sum of the shifted multiples of x at the bits of y, reduced as they are shifted. */
  lemma ProductIsSumOfShifts(x: byte, y: byte)
    ensures Mul(x, y) == SumOfShifts(x, y, 8)
  {
    hide Mul, SumOfShifts;
    assert Pow2(8) == 256;
    ProductBelow(x, y, 8);
  }

  lemma CommutesPow2(x: byte, k: nat)
    requires k < 8 && Pow2(k) < 256
    ensures Mul(x, Pow2(k)) == Mul(Pow2(k), x)
  {
    hide MulBits, Double;
    MulBitsPow2(x, k, 8);
    MulBitsPow2(1, k, 8);
    MulOne(Pow2(k));
    DoublesMul(1, x, k);
    MulOne(x);
  }

  lemma {:induction false} CommutesBelow(x: byte, y: byte, k: nat)
    requires k <= 8 && y < Pow2(k)
    ensures Mul(x, y) == Mul(y, x)
  {
    hide Mul;
    MulZero(x);
    if k > 0 {
      var p := Pow2(k - 1);
      if y < p {
        CommutesBelow(x, y, k - 1);
      } else {
        assert p <= Pow2(7) == 128 by { Pow2Monotone(k - 1, 7); }
        var w := Add(p, y);
        XorCancelsTop(p, y, k - 1);
        hide Add;
        AddLaws(p, y, 0);
        AddCancels(y, p);
        CommutesBelow(x, w, k - 1);
        CommutesPow2(x, k - 1);
        Distributes(w, p, x);
      }
    }
  }

  lemma Commutes(x: byte, y: byte)
    ensures Mul(x, y) == Mul(y, x)
  {
    assert Pow2(8) == 256;
    CommutesBelow(x, y, 8);
  }

  lemma DoubleSlides(x: byte, y: byte)
    ensures Mul(x, Double(y)) == Double(Mul(x, y)) == Mul(Double(x), y)
  {
    hide MulBits, Double;
    Commutes(x, Double(y));
    Commutes(x, y);
    MulBitsDouble(y, x, 8);
    MulBitsDouble(x, y, 8);
  }

  lemma {:induction false} AssociatesBits(x: byte, y: byte, z: byte, i: nat)
    requires i <= 8
    ensures MulBits(Mul(x, y), z, i) == Mul(x, MulBits(y, z, i))
  {
    hide Mul, Add, Double, Bit;
    MulZero(x);
    if i > 0 {
      AssociatesBits(x, y, z, i - 1);
      var w := MulBits(y, z, i - 1);
      DoubleSlides(x, w);
      Distributes(Double(w), Gate(y, Bit(z, 8 - i)), x);
    }
  }

  lemma Associates(x: byte, y: byte, z: byte)
    ensures Mul(Mul(x, y), z) == Mul(x, Mul(y, z))
  {
    hide MulBits;
    AssociatesBits(x, y, z, 8);
    assert Mul(Mul(x, y), z) == MulBits(Mul(x, y), z, 8);
  }
}
