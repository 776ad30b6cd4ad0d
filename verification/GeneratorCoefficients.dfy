/** No coefficient of a generator polynomial of degree below 255 is zero.

    The coefficient of x^(r-k) is alpha^(k(k-1)/2) times the Gaussian binomial [r choose k], and a
    Gaussian binomial is a quotient of products of factors alpha^m + 1 with 0 < m < 255, none of
    which vanishes.  The proof runs on the ratio of neighbouring coefficients, which avoids division. */
module GeneratorCoefficients {
  import opened Gf256
  import opened Primitive
  import opened Polynomials

  ghost function Coefficient(r: nat, k: nat): (c: Byte)
  {
    if k <= r then Generator(r)[k] else 0
  }

  /** Multiplying by x + c. */
  lemma {:induction false} TimesLinear(p: Poly, c: Byte, k: nat)
    requires p != [] && k <= |p|
    ensures Product(p, [1, c])[k]
         == Add(if k < |p| then p[k] else 0, Mul(if k > 0 then p[k - 1] else 0, c))
    decreases |p|
  {
    hide Add, Mul;
    forall b: Byte
      ensures Mul(b, 1) == b && Add(0, b) == b && Add(b, 0) == b && Mul(0, b) == 0
    {
      MulOne(b);
      AddLaws(b);
      MulZero(b);
    }
    if |p| > 1 {
      var p', d := p[..|p| - 1], p[|p| - 1];
      var first, second := Product(p', [1, c]) + [0], Zeros(|p'|) + Scale(d, [1, c]);
      assert Product(p, [1, c]) == Sum(first, second);
      if k < |p| {
        TimesLinear(p', c, k);
      }
      if k == |p'| {
        assert second[k] == d;
        AddCommutes(Mul(p[k - 1], c), d);
      }
    }
  }

  /** The recurrence of Pascal's triangle with weights. */
  lemma CoefficientStep(r: nat, k: nat)
    ensures Coefficient(r + 1, k)
         == Add(Coefficient(r, k), Mul(if k > 0 then Coefficient(r, k - 1) else 0, Exp(r)))
  {
    hide Add, Mul, Exp, Product;
    if k <= r + 1 {
      TimesLinear(Generator(r), Exp(r), k);
    } else {
      MulZero(Exp(r));
      AddLaws(0);
    }
  }

  lemma {:induction false} CoefficientFirst(r: nat)
    ensures Coefficient(r, 0) == 1
  {
    hide Add, Mul, Exp;
    if r == 0 {
      assert Generator(0) == [1];
    } else {
      CoefficientFirst(r - 1);
      CoefficientStep(r - 1, 0);
      MulZero(Exp(r - 1));
      AddLaws(1);
    }
  }

  /** Neighbouring coefficients g(k-1), g(k) of degree r satisfy
      (alpha^k + 1) g(k) = (alpha^r + alpha^(k-1)) g(k-1). */
  lemma {:induction false} CoefficientRatio(r: nat, k: nat)
    requires k > 0
    ensures Mul(Add(Exp(k), 1), Coefficient(r, k))
         == Mul(Add(Exp(r), Exp(k - 1)), Coefficient(r, k - 1))
    decreases r, k
  {
    hide Add, Mul, Exp, Product, Generator;
    if r == 0 {
      RatioBase(k);
    } else {
      CoefficientRatio(r - 1, k);
      CoefficientStep(r - 1, k);
      CoefficientStep(r - 1, k - 1);
      var below := if k > 1 then Coefficient(r - 1, k - 2) else 0;
      if k > 1 {
        CoefficientRatio(r - 1, k - 1);
      }
      RatioStep(r - 1, k, Coefficient(r - 1, k), Coefficient(r - 1, k - 1), below);
    }
  }

  lemma RatioBase(k: nat)
    requires k > 0
    ensures Mul(Add(Exp(k), 1), Coefficient(0, k)) == Mul(Add(Exp(0), Exp(k - 1)), Coefficient(0, k - 1))
  {
    MulCommutes(Add(Exp(k), 1), 0);
    MulZero(Add(Exp(k), 1));
    MulCommutes(Add(Exp(0), Exp(k - 1)), 0);
    MulZero(Add(Exp(0), Exp(k - 1)));
    AddLaws(1);
    MulZero(1);
    hide Add, Mul;
  }

  lemma CancelOuter(u: Byte, v: Byte, w: Byte)
    ensures Add(Add(u, v), Add(w, u)) == Add(v, w)
  {
    AddCommutes(w, u);
    AddExchange(u, v, u, w);
    AddLaws(u);
    AddLaws(Add(v, w));
  }

  /** The left-hand side of the inductive step. */
  lemma RatioLeft(kk: Byte, rr: Byte, jj: Byte, a: Byte, b: Byte)
    requires Mul(Add(kk, 1), a) == Mul(Add(rr, jj), b)
    ensures Mul(Add(kk, 1), Add(a, Mul(b, rr))) == Add(Mul(jj, b), Mul(Mul(kk, rr), b))
  {
    hide Add, Mul;
    var br := Mul(b, rr);
    MulAddsRight(Add(kk, 1), a, br);
    MulAddsLeft(rr, jj, b);
    MulAddsLeft(kk, 1, br);
    MulOne(br);
    MulCommutes(b, rr);
    MulAssociates(kk, rr, b);
    CancelOuter(br, Mul(jj, b), Mul(Mul(kk, rr), b));
  }

  /** t((j + 1) b r) expands to (t j r) b + (t r) b. */
  lemma ShiftedSum(t: Byte, jj: Byte, b: Byte, rr: Byte)
    ensures Mul(t, Mul(Mul(Add(jj, 1), b), rr)) == Add(Mul(Mul(Mul(t, jj), rr), b), Mul(Mul(t, rr), b))
  {
    hide Add, Mul;
    var br := Mul(b, rr);
    MulAssociates(Add(jj, 1), b, rr);
    MulAddsLeft(jj, 1, br);
    MulOne(br);
    MulAddsRight(t, Mul(jj, br), br);
    MulCommutes(b, rr);
    MulAssociates(jj, rr, b);
    MulAssociates(t, Mul(jj, rr), b);
    MulAssociates(t, jj, rr);
    MulAssociates(t, rr, b);
  }

  /** The right-hand side, for k > 1: t is alpha, ii is alpha^(k-2). */
  lemma RatioRight(t: Byte, rr: Byte, ii: Byte, b: Byte, c: Byte)
    requires Mul(Add(Mul(t, ii), 1), b) == Mul(Add(rr, ii), c)
    ensures Mul(Add(Mul(t, rr), Mul(t, ii)), Add(b, Mul(c, rr)))
         == Add(Mul(Mul(t, ii), b), Mul(Mul(Mul(t, Mul(t, ii)), rr), b))
  {
    hide Add, Mul;
    var jj, pp, s := Mul(t, ii), Mul(t, rr), Add(rr, ii);
    MulAddsRight(Add(pp, jj), b, Mul(c, rr));
    MulAddsLeft(pp, jj, b);
    MulAddsRight(t, rr, ii);
    MulAssociates(t, s, Mul(c, rr));
    MulAssociates(s, c, rr);
    ShiftedSum(t, jj, b, rr);
    CancelOuter(Mul(pp, b), Mul(jj, b), Mul(Mul(Mul(t, jj), rr), b));
  }

  lemma ExpNext(i: nat)
    ensures Exp(i + 1) == Mul(2, Exp(i))
  {
    MulXtimeLeft(1, Exp(i));
    MulOne(Exp(i));
    hide Mul;
    assert Xtime(1) == 2;
  }

  /** The inductive step, with a, b, c for g(k), g(k-1), g(k-2) of the smaller degree r. */
  lemma RatioStep(r: nat, k: nat, a: Byte, b: Byte, c: Byte)
    requires k > 0
    requires Mul(Add(Exp(k), 1), a) == Mul(Add(Exp(r), Exp(k - 1)), b)
    requires if k > 1 then Mul(Add(Exp(k - 1), 1), b) == Mul(Add(Exp(r), Exp(k - 2)), c) else c == 0
    ensures Mul(Add(Exp(k), 1), Add(a, Mul(b, Exp(r))))
         == Mul(Add(Exp(r + 1), Exp(k - 1)), Add(b, Mul(c, Exp(r))))
  {
    hide Add, Mul;
    RatioLeft(Exp(k), Exp(r), Exp(k - 1), a, b);
    ExpNext(r);
    ExpNext(k - 1);
    if k > 1 {
      ExpNext(k - 2);
      RatioRight(2, Exp(r), Exp(k - 2), b, c);
    } else {
      var rr := Exp(r);
      assert Exp(0) == 1;
      MulZero(rr);
      AddLaws(b);
      MulAddsLeft(Mul(2, rr), 1, b);
      MulOne(2);
      AddCommutes(Mul(Mul(2, rr), b), Mul(1, b));
    }
  }

  /** No coefficient vanishes, so `glog` never throws on a generator of degree below 255. */
  lemma {:induction false} CoefficientNonZero(r: nat, k: nat)
    requires k <= r < 255
    ensures Generator(r)[k] != 0
    decreases k
  {
    hide Add, Mul, Exp, Product, Generator;
    CoefficientFirst(r);
    if k > 0 {
      CoefficientNonZero(r, k - 1);
      CoefficientRatio(r, k);
      ExpPlusExpNonZero(r, k - 1);
      MulNonZero(Add(Exp(r), Exp(k - 1)), Coefficient(r, k - 1));
      MulNonZero(Add(Exp(k), 1), Coefficient(r, k));
    }
  }

  /** The bound is sharp: at degree 255 the generator is x^255 + 1, whose second coefficient is 0. */
  lemma FullGeneratorHasZero()
    ensures Generator(255)[1] == 0
  {
    assert Exp(0) == 1;
    hide Add, Mul, Exp, Product, Generator;
    CoefficientFirst(255);
    CoefficientRatio(255, 1);
    PowerIsPeriodic();
    AddLaws(1);
    MulZero(Coefficient(255, 0));
    ExpPlusExpNonZero(1, 0);
    MulNonZero(Add(Exp(1), 1), Coefficient(255, 1));
  }
}
