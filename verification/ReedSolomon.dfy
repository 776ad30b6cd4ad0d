/** The polynomial objects of the encoder and the Reed-Solomon check codewords made with them. */
module ReedSolomon {
  import opened Gf256
  import opened Primitive
  import opened Tables
  import opened Polynomials
  import opened GeneratorCoefficients
  import opened Results

  /** An array slot: a byte, or never assigned.  An unassigned slot reads as 0 in arithmetic but
      does not compare equal to 0. */
  type Slot = s: int | -1 <= s < 256

  const UNSET: Slot := -1

  function Val(s: Slot): (b: Byte)
  {
    if s == UNSET then 0 else s
  }

  ghost function Vals(p: seq<Slot>): (r: Poly)
    ensures |r| == |p|
  {
    seq(|p|, i requires 0 <= i < |p| => Val(p[i]))
  }

  function Blank(n: nat): (r: seq<Slot>)
    ensures |r| == n
  {
    seq(n, i => UNSET)
  }

  /** `s` without its leading zeros; the first unassigned slot stops the stripping. */
  ghost function Strip(s: seq<Slot>): (r: seq<Slot>)
    ensures |r| <= |s|
    ensures r == s[|s| - |r|..]
    ensures r != [] ==> r[0] != 0
  {
    if s != [] && s[0] == 0 then Strip(s[1..]) else s
  }

  /** All slots assigned. */
  ghost predicate AllSet(p: seq<Slot>)
  {
    forall i :: 0 <= i < |p| ==> p[i] != UNSET
  }

  ghost predicate NoZero(p: seq<Slot>)
  {
    forall i :: 0 <= i < |p| ==> Val(p[i]) != 0
  }

  lemma StripNext(s: seq<Slot>)
    ensures Strip(s) == if s != [] && s[0] == 0 then Strip(s[1..]) else s
  {
  }

  lemma ValsNext(s: seq<Slot>)
    requires s != [] && s[0] == 0
    ensures Vals(s) == Zeros(1) + Vals(s[1..])
  {
  }

  lemma {:induction false} StripKeepsValue(s: seq<Slot>, x: Byte)
    ensures Eval(Vals(Strip(s)), x) == Eval(Vals(s), x)
  {
    hide Add, Mul, Eval, Strip, Vals, Zeros;
    StripNext(s);
    if s != [] && s[0] == 0 {
      StripKeepsValue(s[1..], x);
      ValsNext(s);
      EvalLeadingZeros(1, Vals(s[1..]), x);
    }
  }

  lemma ValsConcat(p: seq<Slot>, q: seq<Slot>)
    ensures Vals(p + q) == Vals(p) + Vals(q)
  {
  }

  lemma ValsBlank(n: nat)
    ensures Vals(Blank(n)) == Zeros(n)
  {
  }

  datatype QRPolynomial = QRPolynomial(num: seq<Slot>)

  lemma {:induction false} StripAt(s: seq<Slot>, k: nat)
    requires k <= |s| && (forall i :: 0 <= i < k ==> s[i] == 0) && (k < |s| ==> s[k] != 0)
    ensures Strip(s) == s[k..]
  {
    if k > 0 {
      StripAt(s[1..], k - 1);
    }
  }

  method NewPolynomial(num: seq<Slot>, shift: nat) returns (p: QRPolynomial)
    ensures p.num == Strip(num) + Blank(shift)
  {
    hide Strip;
    var offset := 0;
    while offset < |num| && num[offset] == 0
      invariant offset <= |num|
      invariant forall i :: 0 <= i < offset ==> num[i] == 0
    {
      offset := offset + 1;
    }
    StripAt(num, offset);
    var kept := new Slot[|num| - offset + shift](_ => UNSET);
    for i := 0 to |num| - offset
      invariant forall k :: 0 <= k < i ==> kept[k] == num[k + offset]
      invariant forall k :: i <= k < kept.Length ==> kept[k] == UNSET
    {
      kept[i] := num[i + offset];
    }
    p := QRPolynomial(kept[..]);
    assert p.num == num[offset..] + Blank(shift);
  }

  // ---- multiply

  /** Slots `before` with a * e added from position i on. */
  ghost predicate RowAdded(before: seq<Slot>, after: seq<Slot>, i: nat, a: Byte, e: seq<Slot>, n: nat)
    requires n <= |e| && i + n <= |before|
  {
    && |after| == |before|
    && (forall k :: 0 <= k < |before| && !(i <= k < i + n) ==> after[k] == before[k])
    && (forall k :: i <= k < i + n ==> after[k] == Add(Val(before[k]), Mul(a, Val(e[k - i]))))
  }

  /** One row of the product, in place: num[i + j] ^= a * e[j]. */
  method AddRow(qm: QRMath, num: array<Slot>, i: nat, a: Slot, e: seq<Slot>) returns (r: Result<()>)
    requires qm.Valid() && a != UNSET && AllSet(e)
    requires i + |e| <= num.Length && num != qm.expTable as object && num != qm.logTable as object
    modifies num
    ensures qm.Valid()
    ensures r.Success? <==> |e| == 0 || (Val(a) != 0 && NoZero(e))
    ensures r.Success? ==> RowAdded(old(num[..]), num[..], i, Val(a), e, |e|)
  {
    hide Add, Mul, ExpZ;
    for j := 0 to |e|
      invariant qm.Valid()
      invariant j > 0 ==> Val(a) != 0
      invariant forall k :: 0 <= k < j ==> Val(e[k]) != 0
      invariant RowAdded(old(num[..]), num[..], i, Val(a), e, j)
    {
      var la :- qm.Glog(Val(a));
      var le :- qm.Glog(Val(e[j]));
      var x := qm.Gexp(la + le);
      ProductByLogs(Val(a), Val(e[j]));
      num[i + j] := Add(Val(num[i + j]), x);
    }
    return Success(());
  }

  /** The partial product after the first i rows. */
  ghost function Rows(a: Poly, e: Poly, i: nat): (r: Poly)
    requires i <= |a| && |a| + |e| > 0
    ensures |r| == |a| + |e| - 1
  {
    if i == 0 then Zeros(|a| + |e| - 1) else Product(a[..i], e) + Zeros(|a| - i)
  }

  /** Adding one more row gives the next partial product. */
  lemma RowsStep(a: Poly, e: Poly, i: nat, k: nat)
    requires i < |a| && k < |a| + |e| - 1
    ensures Rows(a, e, i + 1)[k]
         == if i <= k < i + |e| then Add(Rows(a, e, i)[k], Mul(a[i], e[k - i])) else Rows(a, e, i)[k]
  {
    hide Mul;
    var p := a[..i + 1];
    assert p[..i] == a[..i] && p[i] == a[i];
    AddLaws(Rows(a, e, i)[k]);
    if i == 0 {
      if k < |e| {
        AddLaws(Mul(a[0], e[k]));
      }
    } else {
      var upper, lower := Product(p[..i], e) + [0], Zeros(i) + Scale(a[i], e);
      assert Product(p, e) == Sum(upper, lower);
    }
  }

  lemma RowsAdvance(before: seq<Slot>, after: seq<Slot>, p: seq<Slot>, e: seq<Slot>, i: nat)
    requires i < |p| && |before| == |p| + |e| - 1
    requires Vals(before) == Rows(Vals(p), Vals(e), i)
    requires RowAdded(before, after, i, Val(p[i]), e, |e|)
    ensures Vals(after) == Rows(Vals(p), Vals(e), i + 1)
  {
    hide Add, Mul;
    forall k | 0 <= k < |after|
      ensures Vals(after)[k] == Rows(Vals(p), Vals(e), i + 1)[k]
    {
      RowsStep(Vals(p), Vals(e), i, k);
    }
  }

  /** The leading coefficient of a product of non-zero coefficients is not stripped. */
  lemma {:induction false} LeadingProduct(p: Poly, e: Poly)
    requires p != [] && e != []
    ensures Product(p, e)[0] == Mul(p[0], e[0])
    decreases |p|
  {
    hide Add, Mul;
    if |p| > 1 {
      LeadingProduct(p[..|p| - 1], e);
      AddLaws(Mul(p[0], e[0]));
    }
  }

  lemma BlankIs(s: seq<Slot>)
    requires forall i :: 0 <= i < |s| ==> s[i] == UNSET
    ensures s == Blank(|s|)
  {
  }

  lemma NoZeroNext(p: seq<Slot>, i: nat)
    requires i < |p|
    ensures NoZero(p[..i + 1]) <==> NoZero(p[..i]) && Val(p[i]) != 0
    ensures NoZero(p) ==> NoZero(p[..i + 1])
  {
  }

  lemma NoZeroEnds(p: seq<Slot>)
    ensures NoZero(p[..0]) && p[..|p|] == p
  {
  }

  lemma SlotIsSet(p: seq<Slot>, i: nat)
    requires AllSet(p) && i < |p|
    ensures p[i] != UNSET
  {
  }

  method Multiply(qm: QRMath, p: QRPolynomial, e: QRPolynomial) returns (r: Result<QRPolynomial>)
    requires qm.Valid() && AllSet(p.num) && AllSet(e.num)
    ensures p.num == [] && e.num == [] ==> r == Failure(NegativeLength)
    ensures p.num != [] && e.num != [] ==> (r.Success? <==> NoZero(p.num) && NoZero(e.num))
    ensures p.num != [] && e.num != [] && r.Success? ==>
      AllSet(r.value.num) && Vals(r.value.num) == Product(Vals(p.num), Vals(e.num))
  {
    hide QRMath.Valid, Add, Mul, Product, Rows, Strip, RowAdded, Vals, NoZero, Blank, Val;
    var length := |p.num| + |e.num| - 1;
    if length < 0 {
      return Failure(NegativeLength);
    }
    var num := new Slot[length](_ => UNSET);
    RowsStart(p.num, e.num);
    BlankIs(num[..]);
    NoZeroEnds(p.num);
    for i := 0 to |p.num|
      invariant qm.Valid()
      invariant e.num != [] ==> NoZero(p.num[..i]) && (i > 0 ==> NoZero(e.num))
      invariant e.num != [] ==> Vals(num[..]) == Rows(Vals(p.num), Vals(e.num), i)
      invariant e.num != [] && i > 0 ==> AllSet(num[..i + |e.num| - 1])
    {
      ghost var before := num[..];
      SlotIsSet(p.num, i);
      NoZeroNext(p.num, i);
      var _ :- AddRow(qm, num, i, p.num[i], e.num);
      if e.num != [] {
        RowsAdvance(before, num[..], p.num, e.num, i);
        RowSets(before, num[..], i, Val(p.num[i]), e.num);
      }
    }
    var value := NewPolynomial(num[..], 0);
    if p.num != [] && e.num != [] {
      ProductUnstripped(num[..], p.num, e.num);
    }
    return Success(value);
  }

  lemma RowsStart(p: seq<Slot>, e: seq<Slot>)
    requires |p| + |e| > 0
    ensures Vals(Blank(|p| + |e| - 1)) == Rows(Vals(p), Vals(e), 0)
  {
  }

  lemma RowSets(before: seq<Slot>, after: seq<Slot>, i: nat, a: Byte, e: seq<Slot>)
    requires e != [] && i + |e| <= |before| && RowAdded(before, after, i, a, e, |e|)
    requires i > 0 ==> AllSet(before[..i + |e| - 1])
    ensures AllSet(after[..i + |e|])
  {
    forall k | 0 <= k < i + |e|
      ensures after[k] != UNSET
    {
      if k < i {
        assert before[..i + |e| - 1][k] != UNSET;
      }
    }
  }

  lemma AllRows(p: Poly, e: Poly)
    requires p != [] && e != []
    ensures Rows(p, e, |p|) == Product(p, e)
  {
    assert p[..|p|] == p;
    hide Product;
    assert Product(p, e) + Zeros(0) == Product(p, e);
  }

  lemma NotStripped(s: seq<Slot>)
    requires s != [] && s[0] != 0
    ensures Strip(s) + Blank(0) == s
  {
  }

  lemma ProductUnstripped(s: seq<Slot>, p: seq<Slot>, e: seq<Slot>)
    requires p != [] && e != [] && NoZero(p) && NoZero(e)
    requires |s| == |p| + |e| - 1 && Vals(s) == Rows(Vals(p), Vals(e), |p|)
    ensures Vals(s) == Product(Vals(p), Vals(e)) && Strip(s) + Blank(0) == s
  {
    hide Add, Mul, Rows, Product, Strip, Blank;
    AllRows(Vals(p), Vals(e));
    LeadingProduct(Vals(p), Vals(e));
    MulNonZero(Val(p[0]), Val(e[0]));
    assert Val(s[0]) != 0;
    NotStripped(s);
  }

  /** The factor x + alpha^i. */
  method LinearFactor(qm: QRMath, i: nat) returns (f: QRPolynomial)
    requires qm.Valid()
    ensures AllSet(f.num) && |f.num| == 2
    ensures i < 255 ==> NoZero(f.num) && Vals(f.num) == [1, Exp(i)]
  {
    hide Exp;
    var c := qm.Gexp(i);
    StripAt([1, c], 0);
    f := NewPolynomial([1, c], 0);
    assert f.num == [1, c];
    if i < 255 {
      assert i % 255 == i;
      ExpNonZero(i);
    }
  }

  method NextGenerator(qm: QRMath, a: QRPolynomial, i: nat) returns (r: Result<QRPolynomial>)
    requires qm.Valid() && i <= 255
    requires AllSet(a.num) && Vals(a.num) == Generator(i)
    ensures r.Success? <==> i < 255
    ensures r.Success? ==> AllSet(r.value.num) && Vals(r.value.num) == Generator(i + 1)
  {
    hide Product, Strip, Exp, Vals, NoZero, Generator, Val, Zeros;
    var factor := LinearFactor(qm, i);
    GeneratorNoZero(a.num, i);
    GeneratorNext(a.num, factor.num, i);
    r := Multiply(qm, a, factor);
  }

  /** The generator polynomial with roots alpha^0 .. alpha^(n-1).  Its construction succeeds exactly
      up to degree 255: the next factor would take the logarithm of a zero coefficient. */
  method ErrorCorrectionPolynomial(qm: QRMath, n: nat) returns (r: Result<QRPolynomial>)
    requires qm.Valid()
    ensures r.Success? <==> n <= 255
    ensures r.Success? ==> AllSet(r.value.num) && Vals(r.value.num) == Generator(n)
  {
    hide Product, Strip, Exp, Vals, NoZero, Generator, Val, Zeros, AllSet, QRMath.Valid;
    var a := NewPolynomial([1], 0);
    GeneratorStart(a.num);
    for i := 0 to n
      invariant qm.Valid() && i <= 255
      invariant AllSet(a.num) && Vals(a.num) == Generator(i)
    {
      a :- NextGenerator(qm, a, i);
    }
    return Success(a);
  }

  lemma GeneratorNext(a: seq<Slot>, f: seq<Slot>, i: nat)
    requires Vals(a) == Generator(i)
    ensures a != []
    ensures |f| > 0 && Vals(f) == [1, Exp(i)] ==> Product(Vals(a), Vals(f)) == Generator(i + 1)
  {
    assert |Vals(a)| == i + 1;
  }

  lemma StripOne()
    ensures Strip([1]) == [1]
  {
    StripAt([1], 0);
  }

  lemma GeneratorStart(a: seq<Slot>)
    requires a == Strip([1]) + Blank(0)
    ensures AllSet(a) && Vals(a) == Generator(0)
  {
    StripOne();
    hide Strip, Eval;
    assert Blank(0) == [];
    assert a == [1];
    assert Generator(0) == [1];
    hide Generator;
  }

  lemma GeneratorNoZero(g: seq<Slot>, r: nat)
    requires r <= 255 && Vals(g) == Generator(r)
    ensures NoZero(g) <==> r < 255
  {
    hide Generator;
    if r < 255 {
      forall i | 0 <= i < |g|
        ensures Val(g[i]) != 0
      {
        CoefficientNonZero(r, i);
      }
    } else {
      FullGeneratorHasZero();
      assert Val(g[1]) == Vals(g)[1];
    }
  }

  // ---- mod

  /** Only the last m slots may be unassigned. */
  ghost predicate Dense(p: seq<Slot>, m: nat)
  {
    forall i :: 0 <= i < |p| - m ==> p[i] != UNSET
  }

  /** Equal at every root of e, hence congruent modulo e when e has simple roots. */
  ghost predicate AgreeOnRoots(p: Poly, q: Poly, e: Poly)
  {
    forall x: Byte :: Eval(e, x) == 0 ==> Eval(p, x) == Eval(q, x)
  }

  lemma FirstIsSet(p: seq<Slot>, m: nat)
    requires Dense(p, m) && |p| > m
    ensures p[0] != UNSET
  {
  }

  lemma NoBlank(s: seq<Slot>)
    ensures s + Blank(0) == s
  {
  }

  lemma AgreeReflexive(p: Poly, e: Poly)
    ensures AgreeOnRoots(p, p, e)
  {
    hide Eval;
  }

  lemma AgreeTransitive(p: Poly, q: Poly, r: Poly, e: Poly)
    requires AgreeOnRoots(p, q, e) && AgreeOnRoots(q, r, e)
    ensures AgreeOnRoots(p, r, e)
  {
    hide Eval;
  }

  lemma SubtractMultiple(before: seq<Slot>, after: seq<Slot>, c: Byte, e: seq<Slot>)
    requires |e| <= |before| && RowAdded(before, after, 0, c, e, |e|)
    ensures AgreeOnRoots(Vals(after), Vals(before), Vals(e))
  {
    var n := |before| - |e|;
    var multiple := Scale(c, Vals(e)) + Zeros(n);
    forall k | 0 <= k < |before|
      ensures Vals(after)[k] == Add(Vals(before)[k], multiple[k])
    {
      AddLaws(Vals(before)[k]);
    }
    assert Vals(after) == Sum(Vals(before), multiple);
    forall x: Byte | Eval(Vals(e), x) == 0
      ensures Eval(Vals(after), x) == Eval(Vals(before), x)
    {
      MultipleVanishes(c, Vals(e), n, x);
      EvalSum(Vals(before), multiple, x);
      AddLaws(Eval(Vals(before), x));
    }
  }

  lemma MultipleVanishes(c: Byte, e: Poly, n: nat, x: Byte)
    requires Eval(e, x) == 0
    ensures Eval(Scale(c, e) + Zeros(n), x) == 0
  {
    hide Add, Mul, Eval;
    EvalConcat(Scale(c, e), Zeros(n), x);
    EvalScale(c, e, x);
    EvalZeros(n, x);
    MulCommutes(c, 0);
    MulZero(c);
    MulZero(Power(x, n));
    AddLaws(0);
  }

  /** What stripping after a step leaves: shorter, still dense, same values at the roots. */
  lemma AfterStep(before: seq<Slot>, after: seq<Slot>, a: Byte, e: seq<Slot>)
    requires e != [] && |e| <= |before| && Dense(before, |e| - 1)
    requires Val(before[0]) == a != 0 && Val(e[0]) != 0
    requires RowAdded(before, after, 0, Quotient(a, Val(e[0])), e, |e|)
    ensures |Strip(after)| < |before| && Dense(Strip(after), |e| - 1)
    ensures AgreeOnRoots(Vals(Strip(after)), Vals(before), Vals(e))
  {
    hide Add, Mul, Eval;
    AddLaws(a);
    assert after[0] == 0;
    SubtractMultiple(before, after, Quotient(a, Val(e[0])), e);
    forall x: Byte
      ensures Eval(Vals(Strip(after)), x) == Eval(Vals(after), x)
    {
      StripKeepsValue(after, x);
    }
  }

  method Mod(qm: QRMath, p: QRPolynomial, e: QRPolynomial) returns (r: Result<QRPolynomial>)
    requires qm.Valid()
    requires e.num != [] && AllSet(e.num)
    requires Dense(p.num, |e.num| - 1) && (p.num != [] ==> p.num[0] != 0)
    ensures NoZero(e.num) ==> r.Success?
    ensures r.Success? ==> |r.value.num| < |e.num|
    ensures r.Success? ==> AgreeOnRoots(Vals(r.value.num), Vals(p.num), Vals(e.num))
    decreases |p.num|
  {
    hide QRMath.Valid, Add, Mul, Eval, Strip, ExpZ, RowAdded, Dense, AgreeOnRoots, Vals, Blank, Quotient, Log;
    if |p.num| - |e.num| < 0 {
      AgreeReflexive(Vals(p.num), Vals(e.num));
      return Success(p);
    }
    FirstIsSet(p.num, |e.num| - 1);
    var lp := qm.Glog(Val(p.num[0]));
    var le :- qm.Glog(Val(e.num[0]));
    var num := new Slot[|p.num|](i requires 0 <= i < |p.num| => p.num[i]);
    assert num[..] == p.num;
    var _ :- SubtractRow(qm, num, Val(p.num[0]), Val(e.num[0]), lp.value as int - le, e.num);
    AfterStep(p.num, num[..], Val(p.num[0]), e.num);
    var q := NewPolynomial(num[..], 0);
    NoBlank(Strip(num[..]));
    r := Mod(qm, q, e);
    if r.Success? {
      AgreeTransitive(Vals(r.value.num), Vals(q.num), Vals(p.num), Vals(e.num));
    }
  }

  /** The inner loop of `Mod`: adds the multiple of e that cancels the leading coefficient a,
      b being the leading coefficient of e. */
  method SubtractRow(qm: QRMath, num: array<Slot>, a: Byte, b: Byte, ratio: int, e: seq<Slot>)
    returns (r: Result<()>)
    requires qm.Valid() && AllSet(e) && a != 0 && b != 0 && ratio == Log(a) - Log(b)
    requires |e| <= num.Length && num != qm.expTable as object && num != qm.logTable as object
    modifies num
    ensures r.Success? <==> NoZero(e)
    ensures qm.Valid()
    ensures r.Success? ==> RowAdded(old(num[..]), num[..], 0, Quotient(a, b), e, |e|)
  {
    hide Add, Mul, ExpZ;
    for i := 0 to |e|
      invariant qm.Valid()
      invariant forall k :: 0 <= k < i ==> Val(e[k]) != 0
      invariant RowAdded(old(num[..]), num[..], 0, Quotient(a, b), e, i)
    {
      var le :- qm.Glog(Val(e[i]));
      var x := qm.Gexp(le + ratio);
      ScaledByLogs(Val(e[i]), a, b);
      num[i] := Add(Val(num[i]), x);
    }
    return Success(());
  }

  // ---- the check codewords of one block

  /** A word of the Reed-Solomon code with n check symbols: it vanishes at alpha^0 .. alpha^(n-1). */
  ghost predicate IsReedSolomonWord(word: Poly, n: nat)
  {
    forall i :: 0 <= i < n ==> Eval(word, Exp(i)) == 0
  }

  lemma {:induction false} StripAllSet(s: seq<Slot>)
    requires AllSet(s)
    ensures AllSet(Strip(s))
  {
    if s != [] && s[0] == 0 {
      StripAllSet(s[1..]);
    }
  }

  /** Shifting a block left by n slots multiplies its value by x^n. */
  lemma ShiftedValue(dc: seq<Slot>, n: nat, x: Byte)
    ensures Eval(Vals(Strip(dc) + Blank(n)), x) == Mul(Eval(Vals(dc), x), Power(x, n))
  {
    hide Eval, Strip, Mul, Add;
    ValsConcat(Strip(dc), Blank(n));
    ValsBlank(n);
    EvalConcat(Vals(Strip(dc)), Zeros(n), x);
    EvalZeros(n, x);
    StripKeepsValue(dc, x);
    AddLaws(Mul(Eval(Vals(dc), x), Power(x, n)));
  }

  /** Right-aligning a remainder in n slots keeps its value. */
  lemma RightAligned(m: seq<Slot>, ec: seq<Slot>, x: Byte)
    requires |m| <= |ec|
    requires forall i :: 0 <= i < |ec| ==> ec[i] == if i + |m| - |ec| >= 0 then m[i + |m| - |ec|] else 0
    ensures Eval(Vals(ec), x) == Eval(Vals(m), x)
  {
    assert Vals(ec) == Zeros(|ec| - |m|) + Vals(m);
    EvalLeadingZeros(|ec| - |m|, Vals(m), x);
  }

  lemma WordVanishes(dc: seq<Slot>, m: seq<Slot>, ec: seq<Slot>, n: nat, i: nat)
    requires n <= 255 && i < n && |ec| == n && |m| <= n
    requires forall k :: 0 <= k < n ==> ec[k] == if k + |m| - n >= 0 then m[k + |m| - n] else 0
    requires AgreeOnRoots(Vals(m), Vals(Strip(dc) + Blank(n)), Generator(n))
    ensures Eval(Vals(dc) + Vals(ec), Exp(i)) == 0
  {
    hide Eval, Strip, Mul, Add, Exp;
    var x := Exp(i);
    GeneratorRoots(n, i);
    ShiftedValue(dc, n, x);
    RightAligned(m, ec, x);
    EvalConcat(Vals(dc), Vals(ec), x);
    AddLaws(Eval(Vals(m), x));
  }

  /** The check codewords of a data block: together they form a word of the code. */
  method CheckCodewords(qm: QRMath, dc: seq<Slot>, n: nat) returns (r: Result<seq<Slot>>)
    requires qm.Valid() && AllSet(dc)
    ensures n < 255 ==> r.Success?
    ensures r.Success? ==> |r.value| == n && IsReedSolomonWord(Vals(dc) + Vals(r.value), n)
  {
    hide QRMath.Valid, Eval, Strip, Generator, Exp, Vals, Val, IsReedSolomonWord;
    var rsPoly :- ErrorCorrectionPolynomial(qm, n);
    var size := |rsPoly.num|;
    BlockReady(dc, rsPoly.num, n);
    var rawPoly := NewPolynomial(dc, size - 1);
    var modPoly :- Mod(qm, rawPoly, rsPoly);
    var ec := new Slot[size - 1](_ => 0);
    for i := 0 to ec.Length
      invariant forall k :: 0 <= k < i ==>
        ec[k] == if k + |modPoly.num| - ec.Length >= 0 then modPoly.num[k + |modPoly.num| - ec.Length] else 0
    {
      var modIndex := i + |modPoly.num| - ec.Length;
      ec[i] := if modIndex >= 0 then modPoly.num[modIndex] else 0;
    }
    BlockDone(dc, modPoly.num, ec[..], n);
    return Success(ec[..]);
  }

  lemma BlockReady(dc: seq<Slot>, g: seq<Slot>, n: nat)
    requires AllSet(dc) && n <= 255 && Vals(g) == Generator(n)
    ensures |g| == n + 1 && (n < 255 ==> NoZero(g))
    ensures Dense(Strip(dc) + Blank(n), n)
    ensures Strip(dc) + Blank(n) != [] ==> (Strip(dc) + Blank(n))[0] != 0
  {
    hide Generator;
    GeneratorNoZero(g, n);
    StripAllSet(dc);
    assert |Vals(g)| == n + 1;
  }

  lemma BlockDone(dc: seq<Slot>, m: seq<Slot>, ec: seq<Slot>, n: nat)
    requires n <= 255 && |ec| == n && |m| <= n
    requires forall k :: 0 <= k < n ==> ec[k] == if k + |m| - n >= 0 then m[k + |m| - n] else 0
    requires AgreeOnRoots(Vals(m), Vals(Strip(dc) + Blank(n)), Generator(n))
    ensures IsReedSolomonWord(Vals(dc) + Vals(ec), n)
  {
    forall i | 0 <= i < n
      ensures Eval(Vals(dc) + Vals(ec), Exp(i)) == 0
    {
      WordVanishes(dc, m, ec, n, i);
    }
  }
}
