/**
 Reed-Solomon error correction codewords: the generator polynomial and the shift-register
 division, as the encoder computes them in place, and what they compute.
 */
module ReedSolomon {
  import opened Bitwise
  import opened Field
  import opened Powers
  import opened Polynomial

  /** (x - 2^0)(x - 2^1)...(x - 2^(n-1)); subtraction is addition here. */
  function Generator(n: nat): (g: Poly)
    ensures |g| == n + 1 && g[0] == 1
  {
    if n == 0 then [1]
    else
      var g := Generator(n - 1);
      AddLaws(1, 0, 0);
      Plus(g + [0], [0] + Scale(Exp(n - 1), g))
  }

  /** The divisor that the encoder stores: the generator without its leading 1. */
  function Divisor(n: nat): (g: Poly)
    ensures |g| == n
  {
    Generator(n)[1..]
  }

  lemma EvalGenerator(n: nat, x: byte)
    requires n > 0
    ensures Eval(Generator(n), x) == Mul(Add(x, Exp(n - 1)), Eval(Generator(n - 1), x))
  {
    hide Mul, Add, Exp, Eval;
    var g, e := Generator(n - 1), Exp(n - 1);
    EvalShift(g, x);
    assert [0] + Scale(e, g) == Zeros(1) + Scale(e, g);
    EvalPad(1, Scale(e, g), x);
    EvalScale(e, g, x);
    EvalPlus(g + [0], [0] + Scale(e, g), x);
    Commutes(Eval(g, x), x);
    Distributes(x, e, Eval(g, x));
  }

  lemma EvalConstant(c: byte, x: byte)
    ensures Eval([c], x) == c
  {
    hide Mul, Add;
    assert [c][..0] == [];
    MulZero(x);
    AddLaws(c, 0, 0);
  }

  /** x is one of the first n powers of 2. */
  ghost predicate PowerBelow(x: byte, n: nat) {
    exists m: nat | m < n :: x == Exp(m)
  }

  lemma PowerBelowNext(x: byte, n: nat)
    ensures PowerBelow(x, n + 1) <==> PowerBelow(x, n) || x == Exp(n)
  {
    hide Exp;
  }

  lemma NoRoots(x: byte)
    ensures Eval(Generator(0), x) == 1 && !PowerBelow(x, 0)
  {
    hide Eval;
    EvalConstant(1, x);
  }

  /** The generator's roots are exactly the first n powers of 2. */
  lemma {:induction false} GeneratorRoots(n: nat, x: byte)
    ensures Eval(Generator(n), x) == 0 <==> PowerBelow(x, n)
  {
    hide Mul, Add, Exp, Eval, Generator, PowerBelow;
    if n == 0 {
      NoRoots(x);
    } else {
      GeneratorRoots(n - 1, x);
      EvalGenerator(n, x);
      PowerBelowNext(x, n - 1);
      NoZeroDivisors(Add(x, Exp(n - 1)), Eval(Generator(n - 1), x));
      AddCancels(x, Exp(n - 1));
    }
  }

  /** Shift the register r left, feeding in the factor's multiple of the divisor. */
  function Shifted(r: Poly, g: Poly, f: byte): (s: Poly)
    requires |r| == |g| > 0
    ensures |s| == |g|
  {
    Plus(r[1..] + [0], Scale(f, g))
  }

  /** The register after the given data, starting from zero. */
  function Remainder(data: Poly, g: Poly): (r: Poly)
    requires |g| > 0
    ensures |r| == |g|
  {
    if data == [] then Zeros(|g|)
    else
      var k := |data| - 1;
      var r := Remainder(data[..k], g);
      Shifted(r, g, Add(data[k], r[0]))
  }

  /** The factors that the register produced: the quotient of the division. */
  function Quotient(data: Poly, g: Poly): (q: Poly)
    requires |g| > 0
    ensures |q| == |data|
  {
    if data == [] then []
    else
      var k := |data| - 1;
      Quotient(data[..k], g) + [Add(data[k], Remainder(data[..k], g)[0])]
  }

  function Codeword(data: Poly, n: nat): Poly
    requires n > 0
  {
    data + Remainder(data, Divisor(n))
  }

  // ----- Division

  lemma DivisionStep(prefix: Poly, d: byte, r: Poly, g: Poly)
    requires |r| == |g| > 0
    ensures var f := Add(d, r[0]);
            prefix + [d] + Shifted(r, g, f) == Plus(prefix + r + [0], Zeros(|prefix|) + Scale(f, [1] + g))
  {
    hide Mul, Add;
    var k, f := |prefix|, Add(d, r[0]);
    var s, t, u := Shifted(r, g, f), prefix + r + [0], Zeros(k) + Scale(f, [1] + g);
    forall i | 0 <= i < k + 1 + |g|
      ensures (prefix + [d] + s)[i] == Plus(t, u)[i]
    {
      if i < k {
        AddLaws(prefix[i], 0, 0);
      } else if i == k {
        AddLaws(r[0], f, 0);
        AddCancels(d, r[0]);
        MulOne(f);
      } else {
        assert t[i] == (r[1..] + [0])[i - k - 1];
        assert u[i] == Mul(f, g[i - k - 1]);
      }
    }
  }

  /** Data followed by its remainder is the quotient times the monic polynomial [1] + g. */
  lemma {:induction false} Division(data: Poly, g: Poly)
    requires |g| > 0
    ensures data + Remainder(data, g) == Times(Quotient(data, g), [1] + g)
  {
    hide Mul, Add, Shifted;
    if data == [] {
      assert Times([], [1] + g) == Zeros(|g|);
    } else {
      var k := |data| - 1;
      var prefix, d, r := data[..k], data[k], Remainder(data[..k], g);
      Division(prefix, g);
      DivisionStep(prefix, d, r, g);
      assert prefix + [d] == data;
      assert Quotient(data, g)[..k] == Quotient(prefix, g);
    }
  }

  lemma PlusAt(t: Poly, k: nat, r: Poly, i: nat)
    requires |t| == k + |r| && i < |t|
    ensures Plus(t, Zeros(k) + r)[i] == if i < k then t[i] else Add(t[i], r[i - k])
  {
    hide Add;
    AddLaws(t[i], 0, 0);
  }

  lemma DivisorTail(n: nat)
    ensures [1] + Divisor(n) == Generator(n)
  {
  }

  /** A codeword is a multiple of the generator. */
  lemma CodewordIsMultiple(data: Poly, n: nat)
    requires n > 0
    ensures data + Remainder(data, Divisor(n)) == Codeword(data, n)
    ensures Codeword(data, n) == Times(Quotient(data, Divisor(n)), Generator(n))
  {
    hide Times, Remainder, Quotient, Divisor;
    DivisorTail(n);
    Division(data, Divisor(n));
  }

  /** data * x^n == quotient * generator + remainder */
  lemma DivisionWithRemainder(data: Poly, n: nat)
    requires n > 0
    ensures var q, r := Quotient(data, Divisor(n)), Remainder(data, Divisor(n));
            Plus(Times(q, Generator(n)), Zeros(|data|) + r) == data + Zeros(n)
  {
    hide *;
    CodewordIsMultiple(data, n);
    CodewordPlusRemainder(data, Remainder(data, Divisor(n)));
  }

  lemma CodewordPlusRemainder(data: Poly, r: Poly)
    ensures Plus(data + r, Zeros(|data|) + r) == data + Zeros(|r|)
  {
    hide Mul, Add, Plus;
    var k := |data|;
    forall i | 0 <= i < k + |r|
      ensures Plus(data + r, Zeros(k) + r)[i] == (data + Zeros(|r|))[i]
    {
      PlusAt(data + r, k, r, i);
      if i >= k { AddLaws(r[i - k], 0, 0); }
    }
  }

  lemma SumsAgree(t: Poly, t': Poly, k: nat, r: Poly, r': Poly)
    requires |t| == |t'| == k + |r| && |r| == |r'|
    requires Plus(t, Zeros(k) + r) == Plus(t', Zeros(k) + r')
    ensures forall i | 0 <= i < k :: t[i] == t'[i]
    ensures t == t' ==> r == r'
  {
    hide Add, Plus, Zeros;
    forall i | 0 <= i < k
      ensures t[i] == t'[i]
    {
      PlusAt(t, k, r, i);
      PlusAt(t', k, r', i);
    }
    if t == t' {
      forall i | 0 <= i < |r|
        ensures r[i] == r'[i]
      {
        PlusAt(t, k, r, k + i);
        PlusAt(t, k, r', k + i);
        AddLeftCancels(t[k + i], r[i], r'[i]);
      }
    }
  }

  /** Quotient and remainder by a monic m are unique: no other pair of these sizes makes up the same dividend. */
  lemma DivisionUnique(q: Poly, r: Poly, q': Poly, r': Poly, m: Poly)
    requires |m| > 1 && m[0] == 1 && |q| == |q'| && |r| == |r'| == |m| - 1
    requires Plus(Times(q, m), Zeros(|q|) + r) == Plus(Times(q', m), Zeros(|q|) + r')
    ensures q == q' && r == r'
  {
    hide *;
    SumsAgree(Times(q, m), Times(q', m), |q|, r, r');
    if q != q' {
      var j := FirstDifference(q, q');
      TimesDiffers(q, q', m, j);
    }
  }

  /**
   The remainder is the only polynomial of degree below n that is congruent to data * x^n
   modulo the generator.
   */
  lemma RemainderCharacterised(data: Poly, n: nat, q: Poly, r: Poly)
    requires n > 0 && |q| == |data| && |r| == n
    ensures Plus(Times(q, Generator(n)), Zeros(|data|) + r) == data + Zeros(n)
      <==> q == Quotient(data, Divisor(n)) && r == Remainder(data, Divisor(n))
  {
    hide *;
    var g := Generator(n);
    DivisionWithRemainder(data, n);
    if Plus(Times(q, g), Zeros(|data|) + r) == data + Zeros(n) {
      DivisionUnique(q, r, Quotient(data, Divisor(n)), Remainder(data, Divisor(n)), g);
    }
  }

  lemma TimesDiffers(q: Poly, q': Poly, m: Poly, j: nat)
    requires |q| == |q'| && |m| > 0 && m[0] == 1 && j < |q|
    requires q[..j] == q'[..j] && q[j] != q'[j]
    ensures Times(q, m)[j] != Times(q', m)[j]
  {
    hide Add, Times, Mul;
    var d := Plus(q, q');
    forall i | 0 <= i < j ensures d[i] == 0 {
      assert q[i] == q[..j][i] == q'[i];
      AddCancels(q[i], q'[i]);
    }
    TimesPlus(q, q', m);
    TimesLead(d, m, j);
    AddCancels(q[j], q'[j]);
    AddCancels(Times(q, m)[j], Times(q', m)[j]);
  }

  lemma AddLeftCancels(a: byte, b: byte, c: byte)
    requires Add(a, b) == Add(a, c)
    ensures b == c
  {
    hide Add;
    AddLaws(a, b, 0);
    AddLaws(a, c, 0);
    AddCancels(b, a);
    AddCancels(c, a);
  }

  lemma {:induction false} FirstDifference(p: Poly, q: Poly) returns (j: nat)
    requires |p| == |q| && p != q
    ensures j < |p| && p[j] != q[j] && p[..j] == q[..j]
  {
    if p[0] != q[0] {
      j := 0;
    } else {
      assert p == [p[0]] + p[1..] && q == [q[0]] + q[1..];
      j := FirstDifference(p[1..], q[1..]);
      j := j + 1;
      assert p[..j] == [p[0]] + p[1..][..j - 1] && q[..j] == [q[0]] + q[1..][..j - 1];
    }
  }

  // ----- Syndromes and distance

  /** Every codeword evaluates to zero at 2^0, ..., 2^(n-1). */
  lemma ZeroSyndromes(data: Poly, n: nat, i: nat)
    requires i < n
    ensures Eval(Codeword(data, n), Exp(i)) == 0
  {
    hide Mul, Eval, Times, Exp;
    var q := Quotient(data, Divisor(n));
    CodewordIsMultiple(data, n);
    EvalTimes(q, Generator(n), Exp(i));
    assert PowerBelow(Exp(i), n);
    GeneratorRoots(n, Exp(i));
    MulZero(Eval(q, Exp(i)));
  }

  function Distance(p: Poly, q: Poly): nat
    requires |p| == |q|
  {
    if p == [] then 0
    else Weight(p[0] != q[0]) + Distance(p[1..], q[1..])
  }

  datatype Term = Term(coefficient: byte, locator: byte)

  /** The sum over the terms of coefficient times the i-th power of the locator. */
  function PowerSum(ts: seq<Term>, i: nat): byte {
    if ts == [] then 0
    else Add(Mul(ts[0].coefficient, Power(ts[0].locator, i)), PowerSum(ts[1..], i))
  }

  /** Row elimination: next power sum minus x times this one, term by term. */
  function Eliminate(ts: seq<Term>, x: byte): (us: seq<Term>)
    ensures |us| == |ts|
    ensures forall k | 0 <= k < |ts| ::
              us[k] == Term(Mul(ts[k].coefficient, Add(ts[k].locator, x)), ts[k].locator)
  {
    seq(|ts|, k requires 0 <= k < |ts| =>
      Term(Mul(ts[k].coefficient, Add(ts[k].locator, x)), ts[k].locator))
  }

  lemma EliminateTerm(c: byte, l: byte, x: byte, i: nat)
    ensures Mul(Mul(c, Add(l, x)), Power(l, i))
         == Add(Mul(c, Power(l, i + 1)), Mul(x, Mul(c, Power(l, i))))
  {
    hide Mul, Add;
    var p := Power(l, i);
    Associates(c, Add(l, x), p);
    Distributes(l, x, p);
    Distributes(Mul(l, p), Mul(x, p), c);
    Associates(c, x, p); Commutes(c, x); Associates(x, c, p);
  }

  lemma {:induction false} EliminateSum(ts: seq<Term>, x: byte, i: nat)
    ensures PowerSum(Eliminate(ts, x), i) == Add(PowerSum(ts, i + 1), Mul(x, PowerSum(ts, i)))
  {
    hide Mul, Add, Power;
    if ts == [] {
      MulZero(x);
      AddLaws(0, 0, 0);
    } else {
      var c, l := ts[0].coefficient, ts[0].locator;
      assert Eliminate(ts, x)[1..] == Eliminate(ts[1..], x);
      EliminateSum(ts[1..], x, i);
      EliminateTerm(c, l, x, i);
      var a, s := Mul(c, Power(l, i)), PowerSum(ts[1..], i);
      Distributes(a, s, x);
      AddSwap(Mul(c, Power(l, i + 1)), Mul(x, a), PowerSum(ts[1..], i + 1), Mul(x, s));
    }
  }

  /** Vandermonde: n vanishing power sums of at most n distinct locators leave no non-zero coefficient. */
  lemma {:induction false} Vandermonde(ts: seq<Term>, n: nat)
    requires |ts| <= n
    requires forall j, k | 0 <= j < k < |ts| :: ts[j].locator != ts[k].locator
    requires forall i: nat | i < n :: PowerSum(ts, i) == 0
    ensures forall k | 0 <= k < |ts| :: ts[k].coefficient == 0
    decreases |ts|
  {
    hide Mul, Add, Eliminate;
    if ts != [] {
      var x := ts[0].locator;
      var us := Eliminate(ts[1..], x);
      forall i: nat | i < n - 1
        ensures PowerSum(us, i) == 0
      {
        EliminateFirst(ts, i);
        EliminateSum(ts, x, i);
        MulZero(x);
        AddLaws(0, 0, 0);
      }
      Vandermonde(us, n - 1);
      forall k | 0 < k < |ts|
        ensures ts[k].coefficient == 0
      {
        assert us[k - 1].coefficient == 0;
        NoZeroDivisors(ts[k].coefficient, Add(ts[k].locator, x));
        AddCancels(ts[k].locator, x);
      }
      ZeroTerms(ts[1..], 0);
      MulOne(ts[0].coefficient);
      AddLaws(ts[0].coefficient, 0, 0);
      assert PowerSum(ts, 0) == 0;
    }
  }

  lemma VandermondeNonZero(ts: seq<Term>, n: nat)
    requires |ts| <= n
    requires forall j, k | 0 <= j < k < |ts| :: ts[j].locator != ts[k].locator
    requires forall i: nat | i < n :: PowerSum(ts, i) == 0
    requires forall k | 0 <= k < |ts| :: ts[k].coefficient != 0
    ensures ts == []
  {
    hide PowerSum;
    if ts != [] {
      assert ts[0].coefficient != 0;
      Vandermonde(ts, n);
    }
  }

  lemma EliminateFirst(ts: seq<Term>, i: nat)
    requires ts != []
    ensures PowerSum(Eliminate(ts, ts[0].locator), i) == PowerSum(Eliminate(ts[1..], ts[0].locator), i)
  {
    hide Mul, Add, Power;
    var x := ts[0].locator;
    assert Eliminate(ts, x)[1..] == Eliminate(ts[1..], x);
    AddLaws(x, 0, 0);
    MulZero(ts[0].coefficient);
    MulZero(Power(x, i));
    AddLaws(PowerSum(Eliminate(ts[1..], x), i), 0, 0);
  }

  lemma {:induction false} ZeroTerms(ts: seq<Term>, i: nat)
    requires forall k | 0 <= k < |ts| :: ts[k].coefficient == 0
    ensures PowerSum(ts, i) == 0
  {
    hide Mul, Add, Power;
    if ts != [] {
      ZeroTerms(ts[1..], i);
      MulZero(Power(ts[0].locator, i));
      AddLaws(0, 0, 0);
    }
  }

  /** The non-zero coefficients of a polynomial, each with 2 to its exponent. */
  function Terms(p: Poly): (ts: seq<Term>)
    ensures forall k | 0 <= k < |ts| :: ts[k].coefficient != 0
  {
    if p == [] then []
    else if p[0] == 0 then Terms(p[1..])
    else [Term(p[0], Exp(|p| - 1))] + Terms(p[1..])
  }

  lemma {:induction false} TermsDistinct(p: Poly)
    requires |p| <= 255
    ensures forall k | 0 <= k < |Terms(p)| :: PowerBelow(Terms(p)[k].locator, |p|)
    ensures forall j, k | 0 <= j < k < |Terms(p)| :: Terms(p)[j].locator != Terms(p)[k].locator
  {
    hide Exp;
    if p != [] {
      TermsDistinct(p[1..]);
      var m, rest := |p[1..]|, Terms(p[1..]);
      assert PowerBelow(Exp(m), |p|);
      forall k | 0 <= k < |rest|
        ensures PowerBelow(rest[k].locator, |p|) && rest[k].locator != Exp(m)
      {
        assert PowerBelow(Terms(p[1..])[k].locator, |p[1..]|);
        PowerBelowOther(rest[k].locator, m);
      }
    }
  }

  lemma PowerBelowOther(x: byte, m: nat)
    requires m < 255 && PowerBelow(x, m)
    ensures PowerBelow(x, m + 1) && x != Exp(m)
  {
    hide Exp;
    var i: nat :| i < m && x == Exp(i);
    ExpInjective(i, m);
  }

  lemma {:induction false} TermsSum(p: Poly, i: nat)
    ensures PowerSum(Terms(p), i) == Eval(p, Exp(i))
  {
    hide Mul, Add, Exp, Eval;
    if p == [] {
      assert Eval([], Exp(i)) == 0 by { EvalEmpty(Exp(i)); }
    } else {
      var m := |p| - 1;
      assert p == [p[0]] + p[1..];
      EvalFront(p[0], p[1..], Exp(i));
      TermsSum(p[1..], i);
      PowerExp(i, m, i * m);
      PowerExp(m, i, i * m);
      if p[0] == 0 {
        MulZero(Power(Exp(i), m));
        AddLaws(Eval(p[1..], Exp(i)), 0, 0);
      } else {
        assert Terms(p)[1..] == Terms(p[1..]);
      }
    }
  }

  lemma EvalEmpty(x: byte)
    ensures Eval([], x) == 0
  {
  }

  lemma {:induction false} TermsCount(p: Poly, q: Poly)
    requires |p| == |q|
    ensures |Terms(Plus(p, q))| == Distance(p, q)
  {
    hide Add, Exp;
    if p != [] {
      assert Plus(p, q)[1..] == Plus(p[1..], q[1..]);
      AddCancels(p[0], q[0]);
      TermsCount(p[1..], q[1..]);
    }
  }

  /** Codewords of different data blocks differ in more than n places. */
  lemma MinimumDistance(data: Poly, other: Poly, n: nat)
    requires n > 0 && |data| == |other| && data != other && |data| + n <= 255
    ensures Distance(Codeword(data, n), Codeword(other, n)) >= n + 1
  {
    hide Exp, Eval, Remainder, Add;
    var p, q := Codeword(data, n), Codeword(other, n);
    var e := Plus(p, q);
    assert data == p[..|data|] && other == q[..|data|];
    DistanceZero(p, q);
    TermsCount(p, q);
    if Distance(p, q) <= n {
      forall i: nat | i < n
        ensures PowerSum(Terms(e), i) == 0
      {
        TermsSum(e, i);
        EvalPlus(p, q, Exp(i));
        ZeroSyndromes(data, n, i);
        ZeroSyndromes(other, n, i);
        AddLaws(0, 0, 0);
      }
      TermsDistinct(e);
      VandermondeNonZero(Terms(e), n);
    }
  }

  lemma {:induction false} DistanceZero(p: Poly, q: Poly)
    requires |p| == |q|
    ensures Distance(p, q) == 0 <==> p == q
  {
    if p != [] {
      assert p == [p[0]] + p[1..] && q == [q[0]] + q[1..];
      DistanceZero(p[1..], q[1..]);
    }
  }

  lemma {:induction false} Triangle(p: Poly, w: Poly, q: Poly)
    requires |p| == |w| == |q|
    ensures Distance(p, q) <= Distance(w, p) + Distance(w, q)
  {
    if p != [] { Triangle(p[1..], w[1..], q[1..]); }
  }

  /** A received block with at most n/2 wrong codewords comes from one data block only. */
  lemma Correctable(data: Poly, other: Poly, n: nat, received: Poly)
    requires n > 0 && |data| == |other| && |received| == |data| + n <= 255
    requires 2 * Distance(received, Codeword(data, n)) <= n
    requires 2 * Distance(received, Codeword(other, n)) <= n
    ensures data == other
  {
    if data != other {
      MinimumDistance(data, other, n);
      Triangle(Codeword(data, n), received, Codeword(other, n));
    }
  }

  // ----- The in-place computations

  /** The last `degree` coefficients of the i-th partial product of the generator. */
  function PartialProduct(degree: nat, i: nat): (p: Poly)
    ensures |p| == degree
  {
    (Zeros(degree) + Generator(i))[i + 1..]
  }

  lemma PartialProductAt(degree: nat, i: nat, j: nat)
    requires j < degree
    ensures var t := i + 1 + j;
            PartialProduct(degree, i)[j] == (if t < degree then 0 else Generator(i)[t - degree])
  {
  }

  lemma GeneratorAt(i: nat, u: nat)
    requires u <= i + 1
    ensures var g, next := Generator(i), Generator(i + 1);
            next[u] == Add(if u <= i then g[u] else 0, if u > 0 then Mul(Exp(i), g[u - 1]) else 0)
  {
    hide Add, Mul, Exp;
  }

  lemma PartialProductNext(degree: nat, i: nat, j: nat)
    requires i < degree && j < degree
    ensures PartialProduct(degree, i + 1)[j]
         == Add(Mul(PartialProduct(degree, i)[j], Exp(i)),
                if j + 1 < degree then PartialProduct(degree, i)[j + 1] else 0)
  {
    hide *;
    var e, g, p, t := Exp(i), Generator(i), PartialProduct(degree, i), i + 2 + j;
    PartialProductAt(degree, i + 1, j);
    PartialProductAt(degree, i, j);
    if j + 1 < degree { PartialProductAt(degree, i, j + 1); }
    MulZero(e);
    AddLaws(0, 0, 0);
    if t >= degree {
      var u := t - degree;
      GeneratorAt(i, u);
      if u > 0 { Commutes(g[u - 1], e); }
      AddLaws(Mul(p[j], e), if j + 1 < degree then p[j + 1] else 0, 0);
    }
  }

  /** Multiply the stored partial product by (x - root), in ascending order of index. */
  method MultiplyByRoot(degree: nat, result: array<byte>, root: byte, ghost i: nat)
    requires i < degree <= result.Length && root == Exp(i)
    requires result[..degree] == PartialProduct(degree, i)
    modifies result
    ensures result[..degree] == PartialProduct(degree, i + 1)
    ensures result[degree..] == old(result[degree..])
  {
    hide *;
    ghost var p := PartialProduct(degree, i);
    for j := 0 to degree
      invariant forall k | 0 <= k < j :: result[k] == PartialProduct(degree, i + 1)[k]
      invariant forall k | j <= k < degree :: result[k] == p[k]
      invariant result[degree..] == old(result[degree..])
    {
      PartialProductNext(degree, i, j);
      result[j] := Multiply(result[j], root);
      if j + 1 < degree {
        result[j] := Add(result[j], result[j + 1]);
      } else {
        AddLaws(result[j], 0, 0);
      }
    }
  }

  /** The divisor of the given degree, computed in place round by round. */
  method ComputeDivisor(degree: nat, result: array<byte>)
    requires 1 <= degree <= 30 && degree <= result.Length
    modifies result
    ensures result[..degree] == Divisor(degree)
    ensures result[degree..] == old(result[degree..])
  {
    hide *;
    forall k | 0 <= k < degree { result[k] := 0; }
    result[degree - 1] := 1;
    var root: byte := 1;
    PartialProductEnds(degree);
    ExpZero();
    for i := 0 to degree
      invariant root == Exp(i)
      invariant result[..degree] == PartialProduct(degree, i)
      invariant result[degree..] == old(result[degree..])
    {
      MultiplyByRoot(degree, result, root, i);
      ExpNext(i);
      root := Multiply(root, 2);
    }
  }

  lemma PartialProductEnds(degree: nat)
    requires degree > 0
    ensures PartialProduct(degree, 0) == Zeros(degree - 1) + [1]
    ensures PartialProduct(degree, degree) == Divisor(degree)
  {
    hide *;
    DivisorTail(degree);
    GeneratorZero();
    forall j | 0 <= j < degree
      ensures PartialProduct(degree, 0)[j] == (Zeros(degree - 1) + [1])[j]
      ensures PartialProduct(degree, degree)[j] == Divisor(degree)[j]
    {
      PartialProductAt(degree, 0, j);
      PartialProductAt(degree, degree, j);
      assert ([1] + Divisor(degree))[j + 1] == Divisor(degree)[j];
    }
  }

  lemma GeneratorZero()
    ensures Generator(0) == [1]
  {
  }

  lemma ExpNext(i: nat)
    ensures Exp(i + 1) == Mul(Exp(i), 2)
  {
    hide Mul, Double;
    DoubleSlides(Exp(i), 1);
    DoubleShifts(1);
    MulOne(Exp(i));
  }

  /** memmove of the register by one place, and a zero in the place it frees. */
  method ShiftLeft(result: array<byte>, at: nat, degree: nat)
    requires degree > 0 && at + degree <= result.Length
    modifies result
    ensures result[at..at + degree] == old(result[at..at + degree])[1..] + [0]
    ensures forall k | 0 <= k < result.Length && !(at <= k < at + degree) :: result[k] == old(result[k])
  {
    ghost var r := result[at..at + degree];
    assert forall k | at <= k < at + degree :: result[k] == r[k - at];
    forall k | at <= k < at + degree - 1 { result[k] := result[k + 1]; }
    result[at + degree - 1] := 0;
    forall k | 0 <= k < degree
      ensures result[at + k] == (r[1..] + [0])[k]
    {
      assert k + 1 < degree ==> r[1..][k] == r[k + 1];
    }
  }

  /** One turn of the division: shift the register left and add the factor's multiple of the divisor. */
  method ShiftRegister(result: array<byte>, at: nat, degree: nat, generator: array<byte>, factor: byte)
    requires degree > 0 && at + degree <= result.Length && degree <= generator.Length
    requires generator != result
    modifies result
    ensures result[at..at + degree] == Shifted(old(result[at..at + degree]), generator[..degree], factor)
    ensures forall k | 0 <= k < result.Length && !(at <= k < at + degree) :: result[k] == old(result[k])
  {
    hide *;
    ghost var r, g := result[at..at + degree], generator[..degree];
    ghost var s, t := r[1..] + [0], Shifted(r, g, factor);
    ShiftedAt(r, g, factor);
    ShiftLeft(result, at, degree);
    assert forall k | at <= k < at + degree :: result[k] == result[at..at + degree][k - at];
    for j := 0 to degree
      invariant forall k | at <= k < at + j :: result[k] == t[k - at]
      invariant forall k | at + j <= k < at + degree :: result[k] == s[k - at]
      invariant forall k | 0 <= k < result.Length && !(at <= k < at + degree) :: result[k] == old(result[k])
    {
      assert generator[j] == g[j];
      var product := Multiply(generator[j], factor);
      result[at + j] := Add(result[at + j], product);
    }
    assert generator[..degree] == g;
  }

  lemma ShiftedAt(r: Poly, g: Poly, f: byte)
    requires |r| == |g| > 0
    ensures |Shifted(r, g, f)| == |g|
    ensures forall k | 0 <= k < |g| :: Shifted(r, g, f)[k] == Add((r[1..] + [0])[k], Mul(g[k], f))
  {
    hide Add, Mul;
    forall k | 0 <= k < |g|
      ensures Mul(g[k], f) == Mul(f, g[k])
    {
      Commutes(g[k], f);
    }
  }

  /**
   The remainder of data[start..start + dataLen], left in result[at..at + degree]. The two
   ranges may lie in the same array, as they do when blocks share their buffer with scratch space.
   */
  method ComputeRemainder(data: array<byte>, start: nat, dataLen: nat,
                          generator: array<byte>, degree: nat, result: array<byte>, at: nat)
    requires 1 <= degree <= 30 && degree <= generator.Length
    requires start + dataLen <= data.Length && at + degree <= result.Length
    requires generator != result
    requires data == result ==> start + dataLen <= at || at + degree <= start
    modifies result
    ensures result[at..at + degree] == Remainder(old(data[start..start + dataLen]), generator[..degree])
    ensures forall k | 0 <= k < result.Length && !(at <= k < at + degree) :: result[k] == old(result[k])
  {
    hide *;
    ghost var d, g := data[start..start + dataLen], generator[..degree];
    forall k | at <= k < at + degree { result[k] := 0; }
    RemainderEmpty(g);
    assert d[..0] == [];
    assert result[at..at + degree] == Zeros(degree);
    for i := 0 to dataLen
      invariant generator[..degree] == g
      invariant result[at..at + degree] == Remainder(d[..i], g)
      invariant forall k | 0 <= k < result.Length && !(at <= k < at + degree) :: result[k] == old(result[k])
    {
      assert data[start + i] == old(data[start + i]) == d[i];
      assert result[at] == result[at..at + degree][0];
      var factor := Add(data[start + i], result[at]);
      ShiftRegister(result, at, degree, generator, factor);
      RemainderAppends(d, i, g);
    }
    assert d[..dataLen] == d;
  }

  lemma RemainderEmpty(g: Poly)
    requires |g| > 0
    ensures Remainder([], g) == Zeros(|g|)
  {
  }

  lemma RemainderAppends(data: Poly, i: nat, g: Poly)
    requires |g| > 0 && i < |data|
    ensures |Remainder(data[..i], g)| == |g|
    ensures var r := Remainder(data[..i], g);
            Remainder(data[..i + 1], g) == Shifted(r, g, Add(data[i], r[0]))
  {
    hide Add, Shifted;
    assert data[..i + 1][..i] == data[..i];
  }
}
