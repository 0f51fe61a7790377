/**
 C's bitwise operators on unsigned integers, as recursive functions on naturals.
 A `byte` is the model of `uint8_t`.
 */
module Bitwise {
  import opened Arithmetic

  type byte = b: int | 0 <= b < 256

  function Pow2(n: nat): (p: nat)
    ensures p > 0
  {
    if n == 0 then 1 else 2 * Pow2(n - 1)
  }

  /** v >> i */
  function Shr(v: nat, i: nat): nat {
    if i == 0 then v else Shr(v / 2, i - 1)
  }

  predicate Bit(v: nat, i: nat) {
    Shr(v, i) % 2 == 1
  }

  function Weight(b: bool): nat {
    if b then 1 else 0
  }

  function Xor(a: nat, b: nat): nat {
    if a == 0 && b == 0 then 0
    else 2 * Xor(a / 2, b / 2) + Weight(a % 2 != b % 2)
  }

  function Or(a: nat, b: nat): nat {
    if a == 0 && b == 0 then 0
    else 2 * Or(a / 2, b / 2) + Weight(a % 2 == 1 || b % 2 == 1)
  }

  function And(a: nat, b: nat): nat {
    if a == 0 && b == 0 then 0
    else 2 * And(a / 2, b / 2) + Weight(a % 2 == 1 && b % 2 == 1)
  }

  lemma XorHalves(a: nat, b: nat)
    ensures Xor(a, b) / 2 == Xor(a / 2, b / 2)
    ensures Xor(a, b) % 2 == Weight(a % 2 != b % 2)
  {
  }

  lemma OrHalves(a: nat, b: nat)
    ensures Or(a, b) / 2 == Or(a / 2, b / 2)
    ensures Or(a, b) % 2 == Weight(a % 2 == 1 || b % 2 == 1)
  {
  }

  lemma AndHalves(a: nat, b: nat)
    ensures And(a, b) / 2 == And(a / 2, b / 2)
    ensures And(a, b) % 2 == Weight(a % 2 == 1 && b % 2 == 1)
  {
  }

  lemma {:induction false} XorShr(a: nat, b: nat, i: nat)
    ensures Shr(Xor(a, b), i) == Xor(Shr(a, i), Shr(b, i))
  {
    hide Xor;
    if i > 0 {
      XorHalves(a, b);
      XorShr(a / 2, b / 2, i - 1);
    }
  }

  lemma XorBit(a: nat, b: nat, i: nat)
    ensures Bit(Xor(a, b), i) == (Bit(a, i) != Bit(b, i))
  {
    hide Xor;
    XorShr(a, b, i);
    XorHalves(Shr(a, i), Shr(b, i));
  }

  lemma {:induction false} OrBit(a: nat, b: nat, i: nat)
    ensures Bit(Or(a, b), i) == (Bit(a, i) || Bit(b, i))
  {
    hide Or;
    OrHalves(a, b);
    if i > 0 { OrBit(a / 2, b / 2, i - 1); }
  }

  lemma {:induction false} AndBit(a: nat, b: nat, i: nat)
    ensures Bit(And(a, b), i) == (Bit(a, i) && Bit(b, i))
  {
    hide And;
    AndHalves(a, b);
    if i > 0 { AndBit(a / 2, b / 2, i - 1); }
  }

  lemma {:induction false} ZeroBit(i: nat)
    ensures Shr(0, i) == 0
  {
    if i > 0 { ZeroBit(i - 1); }
  }

  lemma ShrZero(v: nat)
    ensures Shr(v, 0) == v
  {
  }

  lemma {:induction false} Pow2Bit(k: nat, i: nat)
    ensures Bit(Pow2(k), i) <==> i == k
  {
    if i > 0 {
      if k > 0 { Pow2Bit(k - 1, i - 1); } else { ZeroBit(i - 1); }
    }
  }

  lemma {:induction false} ShrBounded(v: nat, i: nat, j: nat)
    ensures Shr(v, i) < Pow2(j) <==> v < Pow2(i + j)
  {
    if i > 0 { ShrBounded(v / 2, i - 1, j); }
  }

  lemma {:induction false} ShrSplit(v: nat, i: nat)
    ensures Shr(v, i) == 2 * Shr(v, i + 1) + Weight(Bit(v, i))
  {
    if i > 0 { ShrSplit(v / 2, i - 1); } else { assert Shr(v, 1) == v / 2; }
  }

  lemma {:induction false} Bounded(a: nat, b: nat, k: nat)
    requires a < Pow2(k) && b < Pow2(k)
    ensures Xor(a, b) < Pow2(k) && Or(a, b) < Pow2(k) && And(a, b) < Pow2(k)
  {
    hide Xor, Or, And;
    XorHalves(a, b);
    OrHalves(a, b);
    AndHalves(a, b);
    if k > 0 { Bounded(a / 2, b / 2, k - 1); } else { ZeroZero(); }
  }

  lemma ZeroZero()
    ensures Xor(0, 0) == Or(0, 0) == And(0, 0) == 0
  {
  }

  lemma {:induction false} XorCommutes(a: nat, b: nat)
    ensures Xor(a, b) == Xor(b, a)
  {
    if a + b > 0 { XorCommutes(a / 2, b / 2); }
  }

  lemma {:induction false} XorAssociates(a: nat, b: nat, c: nat)
    ensures Xor(Xor(a, b), c) == Xor(a, Xor(b, c))
  {
    hide Xor;
    if a + b + c > 0 {
      XorAssociates(a / 2, b / 2, c / 2);
      XorHalves(a, b);
      XorHalves(b, c);
      XorHalves(Xor(a, b), c);
      XorHalves(a, Xor(b, c));
    } else {
      ZeroZero();
    }
  }

  lemma {:induction false} XorSelf(a: nat)
    ensures Xor(a, a) == 0 && Xor(a, 0) == a && Xor(0, a) == a
  {
    if a > 0 { XorSelf(a / 2); }
  }

  lemma XorSwap(a: nat, b: nat, c: nat, d: nat)
    ensures Xor(Xor(a, b), Xor(c, d)) == Xor(Xor(a, c), Xor(b, d))
  {
    hide Xor;
    XorAssociates(a, b, Xor(c, d));
    XorAssociates(b, c, d);
    XorCommutes(b, c);
    XorAssociates(c, b, d);
    XorAssociates(a, c, Xor(b, d));
  }

  /** Two numbers with the same top bit k cancel it. */
  lemma {:induction false} XorCancelsTop(a: nat, b: nat, k: nat)
    requires Pow2(k) <= a < 2 * Pow2(k) && Pow2(k) <= b < 2 * Pow2(k)
    ensures Xor(a, b) < Pow2(k)
    ensures Xor(a, b) == Xor(a - Pow2(k), b - Pow2(k))
  {
    hide Xor;
    XorHalves(a, b);
    if k > 0 {
      XorCancelsTop(a / 2, b / 2, k - 1);
      XorHalves(a - Pow2(k), b - Pow2(k));
    } else {
      XorSelf(1);
      ZeroZero();
    }
  }

  /** A number below 2^k is its k low bits. */
  lemma {:induction false} BitsDetermine(a: nat, b: nat, k: nat)
    requires a < Pow2(k) && b < Pow2(k)
    requires forall i: nat | i < k :: Bit(a, i) == Bit(b, i)
    ensures a == b
  {
    if k > 0 {
      assert Bit(a, 0) == Bit(b, 0);
      forall i: nat | i < k - 1
        ensures Bit(a / 2, i) == Bit(b / 2, i)
      {
        assert Bit(a, i + 1) == Bit(b, i + 1);
      }
      BitsDetermine(a / 2, b / 2, k - 1);
    }
  }

  /** A shift divides by a power of 2. */
  lemma {:induction false} ShrIs(v: nat, i: nat)
    ensures Shr(v, i) == v / Pow2(i)
  {
    if i > 0 {
      ShrIs(v / 2, i - 1);
      DivideTwice(v, Pow2(i - 1));
    }
  }

  lemma DivideTwice(v: nat, p: nat)
    requires p > 0
    ensures v / 2 / p == v / (2 * p)
  {
    var q, r := v / (2 * p), v % (2 * p);
    assert v == 2 * (q * p) + r;
    assert v / 2 == q * p + r / 2;
    assert r / 2 < p;
    QuotientIs(v / 2, p, q, r / 2);
  }

  lemma QuotientIs(a: nat, b: nat, q: nat, r: nat)
    requires a == q * b + r && r < b
    ensures a / b == q
  {
    var p := a / b;
    assert a == p * b + a % b;
    if p < q { RowsApart(p, q, b); }
    if p > q { RowsApart(q, p, b); }
  }

  lemma {:induction false} Pow2Below(i: nat, k: nat)
    requires i < k
    ensures Pow2(i) < Pow2(k)
  {
    if i < k - 1 { Pow2Below(i, k - 1); }
  }
}
