/** Polynomials over GF(256) as coefficient sequences, highest power first. */
module Polynomials {
  import opened Gf256
  import opened Primitive

  type Poly = seq<Byte>

  /** The value at x, by Horner's rule. */
  ghost function Eval(p: Poly, x: Byte): (r: Byte)
    decreases |p|
  {
    if p == [] then 0 else Add(Mul(Eval(p[..|p| - 1], x), x), p[|p| - 1])
  }

  ghost function Power(x: Byte, n: nat): (r: Byte)
  {
    if n == 0 then 1 else Mul(Power(x, n - 1), x)
  }

  ghost function Zeros(n: nat): (r: Poly)
    ensures |r| == n
  {
    seq(n, i => 0)
  }

  ghost function Scale(c: Byte, p: Poly): (r: Poly)
    ensures |r| == |p|
  {
    seq(|p|, i requires 0 <= i < |p| => Mul(c, p[i]))
  }

  ghost function Sum(p: Poly, q: Poly): (r: Poly)
    requires |p| == |q|
    ensures |r| == |p|
  {
    seq(|p|, i requires 0 <= i < |p| => Add(p[i], q[i]))
  }

  /** The product, one row of the schoolbook table per coefficient of p. */
  ghost function Product(p: Poly, q: Poly): (r: Poly)
    requires |p| + |q| > 0
    ensures |r| == |p| + |q| - 1
    decreases |p|
  {
    if p == [] then Zeros(|q| - 1)
    else if |p| == 1 then Scale(p[0], q)
    else Sum(Product(p[..|p| - 1], q) + [0], Zeros(|p| - 1) + Scale(p[|p| - 1], q))
  }

  lemma EvalSnoc(p: Poly, c: Byte, x: Byte)
    ensures Eval(p + [c], x) == Add(Mul(Eval(p, x), x), c)
  {
    assert (p + [c])[..|p|] == p;
  }

  lemma {:induction false} EvalZeros(n: nat, x: Byte)
    ensures Eval(Zeros(n), x) == 0
  {
    hide Add, Mul;
    if n > 0 {
      assert Zeros(n) == Zeros(n - 1) + [0];
      EvalSnoc(Zeros(n - 1), 0, x);
      EvalZeros(n - 1, x);
      MulZero(x);
      AddLaws(0);
    }
  }

  /** Leading zeros do not matter. */
  lemma {:induction false} EvalLeadingZeros(n: nat, p: Poly, x: Byte)
    ensures Eval(Zeros(n) + p, x) == Eval(p, x)
    decreases |p|
  {
    hide Add, Mul;
    EvalZeros(n, x);
    if p == [] {
      assert Zeros(n) + p == Zeros(n);
    } else {
      var p' := p[..|p| - 1];
      EvalLeadingZeros(n, p', x);
      assert Zeros(n) + p == (Zeros(n) + p') + [p[|p| - 1]];
      EvalSnoc(Zeros(n) + p', p[|p| - 1], x);
    }
  }

  lemma {:induction false} EvalConcat(p: Poly, q: Poly, x: Byte)
    ensures Eval(p + q, x) == Add(Mul(Eval(p, x), Power(x, |q|)), Eval(q, x))
    decreases |q|
  {
    hide Add, Mul;
    var e := Eval(p, x);
    if q == [] {
      assert p + q == p;
      MulOne(e);
      AddLaws(e);
    } else {
      var q', c := q[..|q| - 1], q[|q| - 1];
      EvalConcat(p, q', x);
      assert p + q == (p + q') + [c];
      EvalSnoc(p + q', c, x);
      MulAddsLeft(Mul(e, Power(x, |q'|)), Eval(q', x), x);
      MulAssociates(e, Power(x, |q'|), x);
      AddAssociates(Mul(e, Power(x, |q|)), Mul(Eval(q', x), x), c);
    }
  }

  lemma {:induction false} EvalScale(c: Byte, p: Poly, x: Byte)
    ensures Eval(Scale(c, p), x) == Mul(c, Eval(p, x))
    decreases |p|
  {
    hide Add, Mul;
    if p == [] {
      MulZero(c);
      MulCommutes(c, 0);
    } else {
      var p', d := p[..|p| - 1], p[|p| - 1];
      EvalScale(c, p', x);
      assert Scale(c, p) == Scale(c, p') + [Mul(c, d)];
      EvalSnoc(Scale(c, p'), Mul(c, d), x);
      MulAssociates(c, Eval(p', x), x);
      MulAddsRight(c, Mul(Eval(p', x), x), d);
    }
  }

  lemma {:induction false} EvalSum(p: Poly, q: Poly, x: Byte)
    requires |p| == |q|
    ensures Eval(Sum(p, q), x) == Add(Eval(p, x), Eval(q, x))
    decreases |p|
  {
    hide Add, Mul;
    if p == [] {
      AddLaws(0);
    } else {
      var p', c := p[..|p| - 1], p[|p| - 1];
      var q', d := q[..|q| - 1], q[|q| - 1];
      EvalSum(p', q', x);
      assert Sum(p, q) == Sum(p', q') + [Add(c, d)];
      EvalSnoc(Sum(p', q'), Add(c, d), x);
      MulAddsLeft(Eval(p', x), Eval(q', x), x);
      AddExchange(Mul(Eval(p', x), x), Mul(Eval(q', x), x), c, d);
    }
  }

  /** Evaluation turns the coefficient-wise product into the product of values. */
  lemma {:induction false} EvalProduct(p: Poly, q: Poly, x: Byte)
    requires |p| + |q| > 0
    ensures Eval(Product(p, q), x) == Mul(Eval(p, x), Eval(q, x))
    decreases |p|
  {
    hide Add, Mul, Eval;
    if p == [] {
      assert Eval(p, x) == 0 by {
        EvalZeros(0, x);
        assert p == Zeros(0);
      }
      EvalZeros(|q| - 1, x);
      MulZero(Eval(q, x));
    } else if |p| == 1 {
      EvalScale(p[0], q, x);
      assert p == [] + [p[0]];
      EvalSnoc([], p[0], x);
      EvalZeros(0, x);
      assert Zeros(0) == [];
      MulZero(x);
      AddLaws(p[0]);
    } else {
      var p', c := p[..|p| - 1], p[|p| - 1];
      assert p == p' + [c];
      EvalProductRow(p', c, q, x);
      EvalProduct(p', q, x);
      EvalSnoc(p', c, x);
      HornerTimes(Eval(p', x), c, Eval(q, x), x);
    }
  }

  lemma HornerTimes(a: Byte, c: Byte, b: Byte, x: Byte)
    ensures Mul(Add(Mul(a, x), c), b) == Add(Mul(Mul(a, b), x), Mul(c, b))
  {
    hide Add, Mul;
    MulAddsLeft(Mul(a, x), c, b);
    MulAssociates(a, x, b);
    MulCommutes(x, b);
    MulAssociates(a, b, x);
  }

  lemma EvalProductRow(p': Poly, c: Byte, q: Poly, x: Byte)
    requires p' != []
    ensures Eval(Product(p' + [c], q), x) == Add(Mul(Eval(Product(p', q), x), x), Mul(c, Eval(q, x)))
  {
    hide Add, Mul;
    var p := p' + [c];
    assert p[..|p| - 1] == p';
    EvalSum(Product(p', q) + [0], Zeros(|p'|) + Scale(c, q), x);
    EvalSnoc(Product(p', q), 0, x);
    AddLaws(Mul(Eval(Product(p', q), x), x));
    EvalLeadingZeros(|p'|, Scale(c, q), x);
    EvalScale(c, q, x);
  }

  // ---- the generator polynomial

  /** (x + alpha^0)(x + alpha^1) ... (x + alpha^(r-1)). */
  ghost function Generator(r: nat): (g: Poly)
    ensures |g| == r + 1
  {
    if r == 0 then [1] else Product(Generator(r - 1), [1, Exp(r - 1)])
  }

  lemma EvalLinear(c: Byte, x: Byte)
    ensures Eval([1, c], x) == Add(x, c)
  {
    hide Add, Mul;
    assert [1, c] == [1] + [c] && [1] == [] + [1];
    EvalSnoc([1], c, x);
    EvalSnoc([], 1, x);
    MulZero(x);
    AddLaws(1);
    MulOne(x);
  }

  /** Among the powers of alpha, the roots of the generator are exactly the first r. */
  lemma {:induction false} GeneratorRoots(r: nat, i: nat)
    requires r <= 255 && i < 255
    ensures Eval(Generator(r), Exp(i)) == 0 <==> i < r
  {
    hide Add, Mul, Exp;
    var x := Exp(i);
    if r == 0 {
      assert [1] == [] + [1];
      EvalSnoc([], 1, x);
      MulZero(x);
      AddLaws(1);
    } else {
      GeneratorRoots(r - 1, i);
      EvalProduct(Generator(r - 1), [1, Exp(r - 1)], x);
      EvalLinear(Exp(r - 1), x);
      MulNonZero(Eval(Generator(r - 1), x), Add(x, Exp(r - 1)));
      AddZeroMeansEqual(x, Exp(r - 1));
      ExpDistinct(i, r - 1);
    }
  }
}
