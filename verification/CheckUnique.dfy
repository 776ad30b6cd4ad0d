/** The code has no slack: given the data, only one sequence of n check symbols makes a word.
    So vanishing at alpha^0 .. alpha^(n-1) determines the encoder completely. */
module CheckUnique {
  import opened Gf256
  import opened Primitive
  import opened Polynomials
  import opened ReedSolomon

  /** Quotient of p by x + a, by synthetic division. */
  ghost function Quo(p: Poly, a: Byte): (q: Poly)
    requires p != []
    ensures |q| == |p| - 1
    decreases |p|
  {
    if |p| == 1 then [] else Quo(p[..|p| - 1], a) + [Eval(p[..|p| - 1], a)]
  }

  lemma {:induction false} DivideByLinear(p: Poly, a: Byte, x: Byte)
    requires p != []
    ensures Eval(p, x) == Add(Mul(Add(x, a), Eval(Quo(p, a), x)), Eval(p, a))
    decreases |p|
  {
    hide Add, Mul;
    var s := Add(x, a);
    MulCommutes(s, 0);
    MulZero(s);
    var p', c := p[..|p| - 1], p[|p| - 1];
    if |p| == 1 {
      MulZero(x);
      MulZero(a);
      AddLaws(c);
    } else {
      DivideByLinear(p', a, x);
      EvalSnoc(Quo(p', a), Eval(p', a), x);
      DivideStep(Eval(Quo(p', a), x), Eval(p', a), c, a, x);
    }
  }

  lemma DivideStep(q: Byte, r: Byte, c: Byte, a: Byte, x: Byte)
    ensures Add(Mul(Add(Mul(Add(x, a), q), r), x), c)
         == Add(Mul(Add(x, a), Add(Mul(q, x), r)), Add(Mul(r, a), c))
  {
    hide Add, Mul;
    var s := Add(x, a);
    MulAddsLeft(Mul(s, q), r, x);
    MulAssociates(s, q, x);
    MulAddsRight(s, Mul(q, x), r);
    MulAddsLeft(x, a, r);
    MulCommutes(x, r);
    MulCommutes(a, r);
    var u, rx, ra := Mul(s, Mul(q, x)), Mul(r, x), Mul(r, a);
    AddCancels(rx, ra);
    AddAssociates(u, Add(rx, ra), Add(ra, c));
    AddAssociates(Add(rx, ra), ra, c);
    AddAssociates(u, rx, c);
  }

  lemma {:induction false} ZeroQuotientMeansZero(p: Poly, a: Byte)
    requires p != [] && Eval(p, a) == 0 && Quo(p, a) == Zeros(|p| - 1)
    ensures p == Zeros(|p|)
    decreases |p|
  {
    hide Add, Mul;
    var p', c := p[..|p| - 1], p[|p| - 1];
    MulZero(a);
    AddLaws(c);
    if |p| == 1 {
      assert Eval(p', a) == 0;
    } else {
      assert Quo(p, a)[|p| - 2] == 0;
      assert Quo(p', a) == Quo(p, a)[..|p| - 2] == Zeros(|p| - 2);
      ZeroQuotientMeansZero(p', a);
      assert p == p' + [c];
    }
  }

  /** A polynomial with fewer than n + 1 coefficients and n consecutive powers of alpha as roots is zero. */
  lemma {:induction false} ManyRootsMeanZero(p: Poly, lo: nat, n: nat)
    requires |p| <= n && lo + n <= 255
    requires forall i :: lo <= i < lo + n ==> Eval(p, Exp(i)) == 0
    ensures p == Zeros(|p|)
    decreases |p|
  {
    hide Exp, Add, Mul, Eval;
    if p != [] {
      var a := Exp(lo);
      var q := Quo(p, a);
      forall i | lo + 1 <= i < lo + n
        ensures Eval(q, Exp(i)) == 0
      {
        var x := Exp(i);
        DivideByLinear(p, a, x);
        AddLaws(Mul(Add(x, a), Eval(q, x)));
        MulNonZero(Add(x, a), Eval(q, x));
        ExpPlusExpNonZero(i, lo);
      }
      ManyRootsMeanZero(q, lo + 1, n - 1);
      ZeroQuotientMeansZero(p, a);
    }
  }

  lemma CheckSymbolsUnique(data: Poly, c1: Poly, c2: Poly, n: nat)
    requires |c1| == |c2| == n <= 255
    requires IsReedSolomonWord(data + c1, n) && IsReedSolomonWord(data + c2, n)
    ensures c1 == c2
  {
    hide Exp, Add, Mul, Eval;
    forall i | 0 <= i < n
      ensures Eval(Sum(c1, c2), Exp(i)) == 0
    {
      var x := Exp(i);
      EvalConcat(data, c1, x);
      EvalConcat(data, c2, x);
      EvalSum(c1, c2, x);
      var u := Mul(Eval(data, x), Power(x, n));
      AddZeroMeansEqual(u, Eval(c1, x));
      AddZeroMeansEqual(u, Eval(c2, x));
      AddLaws(u);
    }
    ManyRootsMeanZero(Sum(c1, c2), 0, n);
    forall k | 0 <= k < n
      ensures c1[k] == c2[k]
    {
      assert Sum(c1, c2)[k] == 0;
      AddZeroMeansEqual(c1[k], c2[k]);
    }
  }
}
