/**
 The powers of 2 in the field: 2 has order 255, so its first 255 powers are exactly the
 non-zero elements and products of non-zero elements are non-zero.
 */
module Powers {
  import opened Arithmetic
  import opened Bitwise
  import opened Field

  /** 2^k in the field. */
  function Exp(k: nat): byte {
    Doubles(1, k)
  }

  lemma {:induction false} DoublesRun(z: byte, k: nat, n: nat)
    ensures Doubles(z, k + n) == Doubles(Doubles(z, k), n)
  {
    hide Double;
    if n > 0 { DoublesRun(z, k, n - 1); }
  }

  lemma ExpAdds(a: nat, b: nat)
    ensures Exp(a + b) == Mul(Exp(a), Exp(b))
  {
    hide Mul, Doubles;
    DoublesRun(1, b, a);
    MulOne(Exp(b));
    DoublesMul(1, Exp(b), a);
  }

  lemma {:induction false} ExpPeriod(k: nat, m: nat, n: nat)
    requires Exp(k) == 1 && n == k * m
    ensures Exp(n) == 1
  {
    hide Mul, Doubles;
    if m == 0 {
      ExpZero();
    } else {
      hide Exp;
      NextMultiple(m - 1, k);
      ExpPeriod(k, m - 1, n - k);
      ExpAdds(n - k, k);
      MulOne(1);
    }
  }

  lemma ExpZero()
    ensures Exp(0) == 1
  {
  }

  lemma DoubleNonZero(z: byte)
    requires z != 0
    ensures Double(z) != 0
  {
    hide Xor;
    XorHalves(2 * z, Top(z) * 0x11D);
    XorSelf(2 * z);
  }

  lemma {:induction false} DoublesNonZero(z: byte, n: nat)
    requires z != 0
    ensures Doubles(z, n) != 0
  {
    hide Double;
    if n > 0 {
      DoublesNonZero(z, n - 1);
      DoubleNonZero(Doubles(z, n - 1));
    }
  }

  // ----- 2^255 is 1, and 2^15, 2^51, 2^85 are not

  lemma XorJoins(u: nat, v: nat, b: nat, c: nat)
    requires b <= 1 && c <= 1
    ensures Xor(2 * u + b, 2 * v + c) == 2 * Xor(u, v) + Weight(b != c)
  {
    hide Xor;
    XorHalves(2 * u + b, 2 * v + c);
  }

  /** Xor with 0x1D toggles bits 0, 2, 3 and 4. */
  lemma XorToggles(h: nat, b3: nat, b2: nat, b1: nat, b0: nat)
    requires b3 <= 1 && b2 <= 1 && b1 <= 1 && b0 <= 1
    ensures Xor(32 * h + 16 * b3 + 8 * b2 + 4 * b1 + 2 * b0, 0x1D)
         == 32 * h + 16 * (1 - b3) + 8 * (1 - b2) + 4 * (1 - b1) + 2 * b0 + 1
  {
    hide Xor;
    var u1 := 2 * h + b3;
    assert Xor(u1, 1) == 2 * h + (1 - b3) by {
      XorSelf(h);
      XorJoins(h, 0, b3, 1);
    }
    var u2 := 2 * u1 + b2;
    assert Xor(u2, 3) == 2 * Xor(u1, 1) + (1 - b2) by { XorJoins(u1, 1, b2, 1); }
    var u3 := 2 * u2 + b1;
    assert Xor(u3, 7) == 2 * Xor(u2, 3) + (1 - b1) by { XorJoins(u2, 3, b1, 1); }
    var u4 := 2 * u3 + b0;
    assert Xor(u4, 14) == 2 * Xor(u3, 7) + b0 by { XorJoins(u3, 7, b0, 0); }
    XorJoins(u4, 14, 0, 1);
    assert 32 * h + 16 * b3 + 8 * b2 + 4 * b1 + 2 * b0 == 2 * u4 + 0;
  }

  /** Doubling a byte of at least 128, given by its bits. */
  lemma DoubleReduces(h: nat, b3: nat, b2: nat, b1: nat, b0: nat)
    requires h < 8 && b3 <= 1 && b2 <= 1 && b1 <= 1 && b0 <= 1
    ensures Double(128 + 16 * h + 8 * b3 + 4 * b2 + 2 * b1 + b0)
         == 32 * h + 16 * (1 - b3) + 8 * (1 - b2) + 4 * (1 - b1) + 2 * b0 + 1
  {
    hide Xor;
    var z: byte := 128 + 16 * h + 8 * b3 + 4 * b2 + 2 * b1 + b0;
    assert Pow2(8) == 256;
    XorCancelsTop(2 * z, 0x11D, 8);
    XorToggles(h, b3, b2, b1, b0);
  }

  lemma Doubles5(z: byte, a: byte, b: byte, c: byte, d: byte, e: byte)
    requires Double(z) == a && Double(a) == b && Double(b) == c && Double(c) == d && Double(d) == e
    ensures Doubles(z, 5) == e
  {
    hide Double;
    assert Doubles(z, 1) == a;
    assert Doubles(z, 2) == b;
    assert Doubles(z, 3) == c;
    assert Doubles(z, 4) == d;
  }

  lemma ExpRun(k: nat, z: byte, n: nat, w: byte)
    requires Exp(k) == z && Doubles(z, n) == w
    ensures Exp(k + n) == w
  {
    hide Doubles;
    DoublesRun(1, k, n);
  }

  /** Multiplying by 2^k + 1 is k doublings and one addition. */
  lemma TimesSum(x: byte, k: nat)
    ensures Mul(Add(1, Doubles(1, k)), x) == Add(x, Doubles(x, k))
  {
    hide Doubles, Xor, Mul;
    Distributes(1, Doubles(1, k), x);
    DoublesMul(1, x, k);
    MulOne(x);
  }

  lemma Exp25()
    ensures Exp(15) == 38 && Exp(25) == 3
  {
    hide Double, Doubles, Exp;
    assert Exp(0) == 1 by { ExpZero(); }
    DoubleShifts(1); DoubleShifts(2); DoubleShifts(4); DoubleShifts(8); DoubleShifts(16);
    Doubles5(1, 2, 4, 8, 16, 32);
    DoubleShifts(32); DoubleShifts(64); DoubleReduces(0, 0, 0, 0, 0); DoubleShifts(29); DoubleShifts(58);
    Doubles5(32, 64, 128, 29, 58, 116);
    DoubleShifts(116); DoubleReduces(6, 1, 0, 0, 0); DoubleReduces(4, 1, 1, 0, 1);
    DoubleReduces(0, 0, 1, 1, 1); DoubleShifts(19);
    Doubles5(116, 232, 205, 135, 19, 38);
    DoubleShifts(38); DoubleShifts(76); DoubleReduces(1, 1, 0, 0, 0); DoubleShifts(45); DoubleShifts(90);
    Doubles5(38, 76, 152, 45, 90, 180);
    DoubleReduces(3, 0, 1, 0, 0); DoubleShifts(117); DoubleReduces(6, 1, 0, 1, 0);
    DoubleReduces(4, 1, 0, 0, 1); DoubleReduces(0, 1, 1, 1, 1);
    Doubles5(180, 117, 234, 201, 143, 3);
    ExpRun(0, 1, 5, 32);
    ExpRun(5, 32, 5, 116);
    ExpRun(10, 116, 5, 38);
    ExpRun(15, 38, 5, 180);
    ExpRun(20, 180, 5, 3);
  }

  lemma FewDoubles(z: byte)
    ensures Doubles(z, 1) == Double(z)
    ensures Doubles(z, 2) == Double(Double(z))
    ensures Doubles(z, 4) == Double(Double(Double(Double(z))))
  {
    hide Double;
  }

  lemma Times3(x: byte)
    ensures Mul(3, x) == Add(x, Double(x))
  {
    hide Double, Mul, Doubles, Add;
    TimesSum(x, 1);
    FewDoubles(1); FewDoubles(x);
    DoubleShifts(1);
    Sums();
  }

  lemma Times5(x: byte)
    ensures Mul(5, x) == Add(x, Double(Double(x)))
  {
    hide Double, Mul, Doubles, Add;
    TimesSum(x, 2);
    FewDoubles(1); FewDoubles(x);
    DoubleShifts(1); DoubleShifts(2);
    Sums();
  }

  lemma Times17(x: byte)
    ensures Mul(17, x) == Add(x, Double(Double(Double(Double(x)))))
  {
    hide Double, Mul, Doubles, Add;
    TimesSum(x, 4);
    FewDoubles(1); FewDoubles(x);
    DoubleShifts(1); DoubleShifts(2); DoubleShifts(4); DoubleShifts(8);
    Sums();
  }

  lemma Sums()
    ensures Add(1, 2) == 3 && Add(1, 4) == 5 && Add(1, 16) == 17
    ensures Add(3, 6) == 5 && Add(5, 10) == 15 && Add(5, 20) == 17
  {
    hide Xor;
    XorSelf(1); XorSelf(2); XorSelf(8); XorSelf(5);
    XorJoins(0, 1, 1, 0); XorJoins(0, 2, 1, 0); XorJoins(0, 8, 1, 0);
    XorJoins(0, 1, 1, 1); XorJoins(1, 3, 1, 0);
    XorJoins(1, 2, 0, 1); XorJoins(2, 5, 1, 0);
    XorJoins(0, 2, 1, 1); XorJoins(1, 5, 0, 0); XorJoins(2, 10, 1, 0);
  }

  lemma MoreSums()
    ensures Add(17, 13) == 28 && Add(28, 112) == 108
  {
    hide Xor;
    XorSelf(1); XorSelf(7); XorSelf(0); XorSelf(3);
    XorJoins(1, 0, 0, 1); XorJoins(2, 1, 0, 1); XorJoins(4, 3, 0, 0); XorJoins(8, 6, 1, 1);
    XorJoins(0, 3, 1, 1); XorJoins(1, 7, 1, 0); XorJoins(3, 14, 1, 0); XorJoins(7, 28, 0, 0); XorJoins(14, 56, 0, 0);
  }

  lemma Exp50()
    ensures Exp(50) == 5 && Exp(51) == 10 && Exp(75) == 15
  {
    hide Double, Doubles, Exp, Mul, Add;
    Sums();
    Exp25();
    DoubleShifts(3); DoubleShifts(5);
    Times3(3); Times3(5);
    ExpAdds(25, 25);
    ExpAdds(25, 50);
    FewDoubles(5);
    ExpRun(50, 5, 1, 10);
  }

  lemma Exp85()
    ensures Exp(85) == 214
  {
    hide Double, Doubles, Exp, Mul, Add;
    Exp50();
    DoubleShifts(15); DoubleShifts(30); DoubleShifts(60); DoubleShifts(120); DoubleReduces(7, 0, 0, 0, 0);
    Doubles5(15, 30, 60, 120, 240, 253);
    DoubleReduces(7, 1, 1, 0, 1); DoubleReduces(6, 0, 1, 1, 1); DoubleReduces(5, 0, 0, 1, 1);
    DoubleReduces(3, 1, 0, 1, 1); DoubleShifts(107);
    Doubles5(253, 231, 211, 187, 107, 214);
    ExpRun(75, 15, 5, 253);
    ExpRun(80, 253, 5, 214);
  }

  lemma Exp200()
    ensures Exp(200) == 28
  {
    hide Double, Doubles, Exp, Mul, Add;
    Sums();
    MoreSums();
    Exp50();
    DoubleShifts(5); DoubleShifts(10);
    Times5(5);
    ExpAdds(50, 50);
    assert Exp(100) == 17;
    DoubleShifts(17); DoubleShifts(34); DoubleShifts(68); DoubleReduces(0, 1, 0, 0, 0);
    Times17(17);
    ExpAdds(100, 100);
  }

  lemma Exp255()
    ensures Exp(255) == 1
  {
    hide Double, Doubles, Exp, Mul, Add;
    MoreSums();
    Exp50();
    Exp200();
    DoubleShifts(28); DoubleShifts(56);
    Times5(28);
    ExpAdds(50, 200);
    DoubleShifts(108); DoubleReduces(5, 1, 0, 0, 0); DoubleReduces(2, 1, 1, 0, 1);
    DoubleShifts(71); DoubleReduces(0, 1, 1, 1, 0);
    Doubles5(108, 216, 173, 71, 142, 1);
    ExpRun(250, 108, 5, 1);
  }

  // ----- Order and distinctness

  lemma SmallFactor(q: nat, d: nat)
    requires q * d == 255 && q < 16
    ensures q == 1 || q == 3 || q == 5 || q == 15
  {
    if q == 0 || q == 2 || q == 4 || q == 6 || q == 7 || q == 8 {
      assert false;
    } else if q == 9 || q == 10 || q == 11 || q == 12 || q == 13 || q == 14 {
      assert false;
    }
  }

  lemma Factors(q: nat, d: nat)
    requires q * d == 255 && d < 255
    ensures 0 < d && (15 % d == 0 || 51 % d == 0 || 85 % d == 0)
  {
    if q < 16 {
      SmallFactor(q, d);
    } else if d < 16 {
      SmallFactor(d, q);
    } else {
      AtLeast256(q, d);
    }
  }

  lemma AtLeast256(q: nat, d: nat)
    requires q >= 16 && d >= 16
    ensures q * d >= 256
  {
    assert q * d == 16 * d + (q - 16) * d;
  }

  /** No power of 2 strictly between the 0th and the 255th is 1. */
  lemma {:induction false} OrderIs255(k: nat)
    requires 0 < k < 255
    ensures Exp(k) != 1
    decreases k
  {
    hide Exp, Mul;
    if Exp(k) == 1 {
      var q, r := 255 / k, 255 % k;
      assert 255 == k * q + r;
      ExpPeriod(k, q, k * q);
      ExpAdds(k * q, r);
      Exp255();
      MulOne(Exp(r));
      if r != 0 {
        OrderIs255(r);
      } else {
        Factors(q, k);
        Exp25(); Exp50(); Exp85();
        Multiple(k, 15); Multiple(k, 51); Multiple(k, 85);
      }
    }
  }

  lemma Multiple(k: nat, n: nat)
    requires 0 < k && Exp(k) == 1
    ensures n % k == 0 ==> Exp(n) == 1
  {
    hide Exp;
    if n % k == 0 {
      assert n == k * (n / k);
      ExpPeriod(k, n / k, n);
    }
  }

  lemma {:induction false} DoublesInjective(z: byte, w: byte, n: nat)
    requires Doubles(z, n) == Doubles(w, n)
    ensures z == w
  {
    hide Double, Add;
    if n > 0 {
      var a, b := Doubles(z, n - 1), Doubles(w, n - 1);
      DoubleAdd(a, b);
      AddCancels(Double(a), Double(b));
      AddCancels(a, b);
      if Add(a, b) != 0 { DoubleNonZero(Add(a, b)); }
      DoublesInjective(z, w, n - 1);
    }
  }

  lemma ExpInjective(i: nat, j: nat)
    requires i < j < 255
    ensures Exp(i) != Exp(j)
  {
    hide Doubles;
    if Exp(i) == Exp(j) {
      DoublesRun(1, j - i, i);
      DoublesInjective(1, Exp(j - i), i);
      OrderIs255(j - i);
    }
  }

  // ----- Every non-zero element is a power of 2

  /** The set of the first n powers, which has n members. */
  ghost function FirstPowers(n: nat): (s: set<int>)
  {
    if n == 0 then {} else FirstPowers(n - 1) + {Exp(n - 1)}
  }

  lemma {:induction false} FirstPowersMembers(n: nat)
    ensures forall x | x in FirstPowers(n) :: 1 <= x < 256 && exists k: nat | k < n :: Exp(k) == x
    ensures n <= 255 ==> |FirstPowers(n)| == n
  {
    hide Doubles;
    if n > 0 {
      FirstPowersMembers(n - 1);
      DoublesNonZero(1, n - 1);
      if n <= 255 && Exp(n - 1) in FirstPowers(n - 1) {
        var k: nat :| k < n - 1 && Exp(k) == Exp(n - 1);
        ExpInjective(k, n - 1);
      }
    }
  }

  lemma {:induction false} RangeSize(s: set<int>, n: nat)
    requires forall x | x in s :: 1 <= x <= n
    ensures |s| <= n
  {
    if n == 0 {
      assert forall x | x in s :: false;
      assert s == {};
    } else {
      RangeSize(s - {n}, n - 1);
    }
  }

  /** The discrete logarithm of a non-zero element. */
  lemma Logarithm(x: byte) returns (k: nat)
    requires x != 0
    ensures k < 255 && Exp(k) == x
  {
    hide Exp, FirstPowers;
    var s := FirstPowers(255);
    FirstPowersMembers(255);
    if x !in s {
      RangeSize(s + {x as int}, 255);
    }
    k :| k < 255 && Exp(k) == x;
  }

  /** The field has no zero divisors. */
  lemma NoZeroDivisors(x: byte, y: byte)
    ensures Mul(x, y) == 0 <==> x == 0 || y == 0
  {
    hide Mul, Doubles;
    MulZero(x);
    MulZero(y);
    if x != 0 && y != 0 {
      var i := Logarithm(x);
      var j := Logarithm(y);
      ExpAdds(i, j);
      DoublesNonZero(1, i + j);
    }
  }
}
