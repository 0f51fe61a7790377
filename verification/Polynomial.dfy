/**
 Polynomials over the field as sequences of coefficients, highest power first, which is the
 order in which the encoder keeps data codewords, remainders and the generator.
 */
module Polynomial {
  import opened Arithmetic
  import opened Bitwise
  import opened Field
  import opened Powers

  type Poly = seq<byte>

  function Zeros(n: nat): (p: Poly)
    ensures |p| == n && forall i | 0 <= i < n :: p[i] == 0
  {
    seq(n, _ => 0)
  }

  function Plus(p: Poly, q: Poly): (r: Poly)
    requires |p| == |q|
    ensures |r| == |p| && forall i | 0 <= i < |p| :: r[i] == Add(p[i], q[i])
  {
    seq(|p|, i requires 0 <= i < |p| => Add(p[i], q[i]))
  }

  function Scale(c: byte, p: Poly): (r: Poly)
    ensures |r| == |p| && forall i | 0 <= i < |p| :: r[i] == Mul(c, p[i])
  {
    seq(|p|, i requires 0 <= i < |p| => Mul(c, p[i]))
  }

  /** Schoolbook product, one coefficient of q at a time. */
  function Times(q: Poly, g: Poly): (r: Poly)
    requires |g| > 0
    ensures |r| == |q| + |g| - 1
  {
    if q == [] then Zeros(|g| - 1)
    else
      var k := |q| - 1;
      Plus(Times(q[..k], g) + [0], Zeros(k) + Scale(q[k], g))
  }

  function Power(x: byte, n: nat): byte {
    if n == 0 then 1 else Mul(x, Power(x, n - 1))
  }

  /** Horner's rule. */
  function Eval(p: Poly, x: byte): byte {
    if p == [] then 0
    else
      var k := |p| - 1;
      Add(Mul(Eval(p[..k], x), x), p[k])
  }

  lemma {:induction false} EvalZeros(n: nat, x: byte)
    ensures Eval(Zeros(n), x) == 0
  {
    hide Mul, Add;
    if n > 0 {
      assert Zeros(n)[..n - 1] == Zeros(n - 1);
      EvalZeros(n - 1, x);
      MulZero(x);
      AddLaws(0, 0, 0);
    }
  }

  lemma {:induction false} EvalPlus(p: Poly, q: Poly, x: byte)
    requires |p| == |q|
    ensures Eval(Plus(p, q), x) == Add(Eval(p, x), Eval(q, x))
  {
    hide Mul, Add;
    AddLaws(0, 0, 0);
    if p != [] {
      var k := |p| - 1;
      assert Plus(p, q)[..k] == Plus(p[..k], q[..k]);
      EvalPlus(p[..k], q[..k], x);
      var a, b := Eval(p[..k], x), Eval(q[..k], x);
      Distributes(a, b, x);
      AddSwap(Mul(a, x), Mul(b, x), p[k], q[k]);
    }
  }

  lemma {:induction false} EvalScale(c: byte, p: Poly, x: byte)
    ensures Eval(Scale(c, p), x) == Mul(c, Eval(p, x))
  {
    hide Mul, Add;
    MulZero(c);
    if p != [] {
      var k := |p| - 1;
      assert Scale(c, p)[..k] == Scale(c, p[..k]);
      EvalScale(c, p[..k], x);
      Associates(c, Eval(p[..k], x), x);
      Distributes(Mul(Eval(p[..k], x), x), p[k], c);
    }
  }

  lemma EvalShift(p: Poly, x: byte)
    ensures Eval(p + [0], x) == Mul(Eval(p, x), x)
  {
    hide Mul, Add;
    assert (p + [0])[..|p|] == p;
    AddLaws(Mul(Eval(p, x), x), 0, 0);
  }

  lemma {:induction false} EvalPad(n: nat, p: Poly, x: byte)
    ensures Eval(Zeros(n) + p, x) == Eval(p, x)
  {
    hide Mul, Add;
    if p == [] {
      assert Zeros(n) + p == Zeros(n);
      EvalZeros(n, x);
    } else {
      var k := |p| - 1;
      assert (Zeros(n) + p)[..n + k] == Zeros(n) + p[..k];
      EvalPad(n, p[..k], x);
    }
  }

  /** `Times` is multiplication: its values are the products of the factors' values. */
  lemma {:induction false} EvalTimes(q: Poly, g: Poly, x: byte)
    requires |g| > 0
    ensures Eval(Times(q, g), x) == Mul(Eval(q, x), Eval(g, x))
  {
    hide Mul, Add;
    if q == [] {
      EvalZeros(|g| - 1, x);
      MulZero(Eval(g, x));
    } else {
      var k := |q| - 1;
      var a, b, t := Eval(q[..k], x), Eval(g, x), Times(q[..k], g);
      EvalTimes(q[..k], g, x);
      EvalShift(t, x);
      EvalPad(k, Scale(q[k], g), x);
      EvalScale(q[k], g, x);
      EvalPlus(t + [0], Zeros(k) + Scale(q[k], g), x);
      Associates(a, b, x); Commutes(b, x); Associates(a, x, b);
      Distributes(Mul(a, x), q[k], b);
    }
  }

  lemma {:induction false} EvalFront(c: byte, p: Poly, x: byte)
    ensures Eval([c] + p, x) == Add(Mul(c, Power(x, |p|)), Eval(p, x))
  {
    hide Mul, Add;
    if p == [] {
      assert [c] + p == [c];
      assert [c][..0] == [];
      MulZero(x);
      MulOne(c);
      AddLaws(c, 0, 0);
    } else {
      var k := |p| - 1;
      var w, e := Power(x, k), Eval(p[..k], x);
      assert ([c] + p)[..k + 1] == [c] + p[..k];
      EvalFront(c, p[..k], x);
      Distributes(Mul(c, w), e, x);
      Associates(c, w, x);
      Commutes(w, x);
      AddLaws(Mul(c, Mul(x, w)), Mul(e, x), p[k]);
    }
  }

  lemma {:induction false} PowerExp(i: nat, m: nat, n: nat)
    requires n == i * m
    ensures Power(Exp(i), m) == Exp(n)
  {
    hide Mul, Exp;
    if m == 0 {
      ExpZero();
    } else {
      NextMultiple(m - 1, i);
      PowerExp(i, m - 1, n - i);
      ExpAdds(i, n - i);
    }
  }

  lemma ScaledSum(a: byte, b: byte, k: nat, g: Poly)
    ensures Zeros(k) + Scale(Add(a, b), g) == Plus(Zeros(k) + Scale(a, g), Zeros(k) + Scale(b, g))
  {
    hide Mul, Add;
    AddLaws(0, 0, 0);
    forall i | 0 <= i < |g|
      ensures Scale(Add(a, b), g)[i] == Add(Scale(a, g)[i], Scale(b, g)[i])
    {
      Distributes(a, b, g[i]);
    }
  }

  lemma PlusSwap(s: Poly, t: Poly, u: Poly, v: Poly)
    requires |s| == |t| == |u| == |v|
    ensures Plus(Plus(s, t), Plus(u, v)) == Plus(Plus(s, u), Plus(t, v))
  {
    hide Add;
    forall i | 0 <= i < |s|
      ensures Plus(Plus(s, t), Plus(u, v))[i] == Plus(Plus(s, u), Plus(t, v))[i]
    {
      AddSwap(s[i], t[i], u[i], v[i]);
    }
  }

  lemma PlusZero(p: Poly, q: Poly)
    requires |p| == |q|
    ensures Plus(p, q) + [0] == Plus(p + [0], q + [0])
  {
    hide Add;
    AddLaws(0, 0, 0);
  }

  lemma {:induction false} TimesPlus(p: Poly, q: Poly, g: Poly)
    requires |p| == |q| && |g| > 0
    ensures Times(Plus(p, q), g) == Plus(Times(p, g), Times(q, g))
  {
    if p == [] {
      AddLaws(0, 0, 0);
    } else {
      hide Mul, Add, Scale;
      var k := |p| - 1;
      assert Plus(p, q)[..k] == Plus(p[..k], q[..k]);
      TimesPlus(p[..k], q[..k], g);
      PlusZero(Times(p[..k], g), Times(q[..k], g));
      ScaledSum(p[k], q[k], k, g);
      PlusSwap(Times(p[..k], g) + [0], Times(q[..k], g) + [0], Zeros(k) + Scale(p[k], g), Zeros(k) + Scale(q[k], g));
    }
  }

  /** Multiplying by a monic polynomial keeps the leading coefficient where it is. */
  lemma {:induction false} TimesLead(q: Poly, g: Poly, j: nat)
    requires |g| > 0 && g[0] == 1 && j < |q|
    requires forall i | 0 <= i < j :: q[i] == 0
    ensures Times(q, g)[j] == q[j]
    ensures forall i | 0 <= i < j :: Times(q, g)[i] == 0
  {
    hide Mul, Add;
    var k := |q| - 1;
    MulOne(q[k]);
    AddLaws(0, 0, 0);
    AddLaws(q[j], 0, 0);
    if j < k {
      TimesLead(q[..k], g, j);
    } else {
      TimesZeros(q[..k], g);
    }
  }

  lemma {:induction false} TimesZeros(q: Poly, g: Poly)
    requires |g| > 0 && forall i | 0 <= i < |q| :: q[i] == 0
    ensures Times(q, g) == Zeros(|q| + |g| - 1)
  {
    hide Mul, Add;
    AddLaws(0, 0, 0);
    if q != [] {
      TimesZeros(q[..|q| - 1], g);
      forall c: byte ensures Mul(0, c) == 0 { MulZero(c); }
    }
  }
}
