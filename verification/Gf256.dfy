/** The field GF(256) of ISO/IEC 18004, section 7.5: bytes as polynomials over GF(2) modulo
    x^8 + x^4 + x^3 + x^2 + 1 (0x11D), with generator element alpha = x = 2. */
module Gf256 {
  import opened Gf2

  type Byte = b: nat | b < 256

  function Add(a: Byte, b: Byte): (r: Byte)
  {
    assert Pow2(8) == 256;
    XorBelow(a, b, 8);
    Xor(a, b)
  }

  /** Multiplication by alpha. */
  function Xtime(a: Byte): (r: Byte)
  {
    if a < 128 then 2 * a else ReducedBelow(a); Xor(2 * a, 285)
  }

  lemma ReducedBelow(a: Byte)
    requires a >= 128
    ensures Xor(2 * a, 285) < 256
  {
    assert Pow2(8) == 256 && Pow2(9) == 512;
    XorLeadingCancels(2 * a, 285, 8);
  }

  /** The field product: schoolbook multiplication, reducing after every doubling. */
  function Mul(a: Byte, b: Byte): (r: Byte)
    decreases b
  {
    if b == 0 then 0
    else if b % 2 == 0 then Mul(Xtime(a), b / 2)
    else Add(a, Mul(Xtime(a), b / 2))
  }

  // ---- addition is that of a group in which every element is its own inverse

  lemma AddCommutes(a: Byte, b: Byte)
    ensures Add(a, b) == Add(b, a)
  {
    XorCommutes(a, b);
  }

  lemma AddAssociates(a: Byte, b: Byte, c: Byte)
    ensures Add(Add(a, b), c) == Add(a, Add(b, c))
  {
    XorAssociates(a, b, c);
  }

  lemma AddLaws(a: Byte)
    ensures Add(a, a) == 0 && Add(a, 0) == a && Add(0, a) == a
  {
    XorSelf(a);
  }

  lemma AddCancels(a: Byte, b: Byte)
    ensures Add(Add(a, b), b) == a && Add(b, Add(b, a)) == a
  {
    XorCancels(a, b);
  }

  lemma AddZeroMeansEqual(a: Byte, b: Byte)
    ensures Add(a, b) == 0 <==> a == b
  {
    XorZeroMeansEqual(a, b);
  }

  lemma AddExchange(a: Byte, b: Byte, c: Byte, d: Byte)
    ensures Add(Add(a, b), Add(c, d)) == Add(Add(a, c), Add(b, d))
  {
    XorExchange(a, b, c, d);
  }

  // ---- multiplication by alpha is linear and injective

  lemma XtimeAdds(a: Byte, b: Byte)
    ensures Xtime(Add(a, b)) == Add(Xtime(a), Xtime(b))
  {
    var a', b' := if a < 128 then 0 else 285, if b < 128 then 0 else 285;
    XorDouble(a, b);
    XorExchange(2 * a, a', 2 * b, b');
    XorSelf(285);
    HighBitAdds(a, b);
  }

  lemma HighBitAdds(a: Byte, b: Byte)
    ensures Add(a, b) >= 128 <==> (a >= 128) != (b >= 128)
  {
    assert Pow2(7) == 128 && Pow2(8) == 256;
    if a >= 128 && b >= 128 {
      XorLeadingCancels(a, b, 7);
    } else if a >= 128 {
      XorLeadingSurvives(a, b, 7);
    } else if b >= 128 {
      XorLeadingSurvives(b, a, 7);
      XorCommutes(a, b);
    } else {
      XorBelow(a, b, 7);
    }
  }

  lemma XtimeNonZero(a: Byte)
    ensures Xtime(a) == 0 <==> a == 0
  {
    if a >= 128 {
      XorZeroMeansEqual(2 * a, 285);
    }
  }

  lemma XtimeInjective(a: Byte, b: Byte)
    requires Xtime(a) == Xtime(b)
    ensures a == b
  {
    XtimeAdds(a, b);
    AddZeroMeansEqual(Xtime(a), Xtime(b));
    XtimeNonZero(Add(a, b));
    AddZeroMeansEqual(a, b);
  }

  // ---- field laws of the product

  /** One step of the schoolbook product, without the zero shortcut. */
  lemma MulStep(a: Byte, b: Byte)
    ensures Mul(a, b) == Add(if b % 2 == 1 then a else 0, Mul(Xtime(a), b / 2))
  {
    if b == 0 {
      MulZero(0);
      AddLaws(0);
    } else {
      AddLaws(Mul(Xtime(a), b / 2));
    }
  }

  lemma {:induction false} MulZero(b: Byte)
    ensures Mul(0, b) == 0
    decreases b
  {
    if b != 0 {
      MulZero(b / 2);
    }
  }

  lemma {:induction false} MulAddsLeft(a: Byte, a': Byte, b: Byte)
    ensures Mul(Add(a, a'), b) == Add(Mul(a, b), Mul(a', b))
    decreases b
  {
    hide Add, Xtime;
    if b == 0 {
      AddLaws(0);
    } else {
      XtimeAdds(a, a');
      MulAddsLeft(Xtime(a), Xtime(a'), b / 2);
      var c, c' := if b % 2 == 1 then a else 0, if b % 2 == 1 then a' else 0;
      MulStep(a, b);
      MulStep(a', b);
      MulStep(Add(a, a'), b);
      AddLaws(0);
      AddExchange(c, Mul(Xtime(a), b / 2), c', Mul(Xtime(a'), b / 2));
    }
  }

  lemma {:induction false} MulXtimeLeft(a: Byte, b: Byte)
    ensures Mul(Xtime(a), b) == Xtime(Mul(a, b))
    decreases b
  {
    hide Add, Xtime;
    if b == 0 {
      XtimeNonZero(0);
    } else {
      MulXtimeLeft(Xtime(a), b / 2);
      var c := if b % 2 == 1 then a else 0;
      MulStep(a, b);
      MulStep(Xtime(a), b);
      XtimeAdds(c, Mul(Xtime(a), b / 2));
      XtimeNonZero(0);
    }
  }

  lemma {:induction false} MulOne(a: Byte)
    ensures Mul(1, a) == a && Mul(a, 1) == a
    decreases a
  {
    AddLaws(a);
    assert Mul(a, 1) == Add(a, Mul(Xtime(a), 0));
    if a != 0 {
      MulOne(a / 2);
      MulXtimeLeft(1, a / 2);
      assert Xtime(a / 2) == 2 * (a / 2);
      EvenPlusBit(a);
    }
  }

  /** A byte is its low bit plus alpha times its other bits. */
  lemma EvenPlusBit(a: Byte)
    ensures a == Add(a % 2, Xtime(a / 2))
  {
    XorStep(a % 2, 2 * (a / 2));
  }

  lemma {:induction false} MulCommutes(a: Byte, b: Byte)
    ensures Mul(a, b) == Mul(b, a)
    decreases b
  {
    hide Add, Xtime;
    MulZero(a);
    if b != 0 {
      MulStep(a, b);
      MulCommutes(a, b / 2);
      MulXtimeLeft(a, b / 2);
      EvenPlusBit(b);
      MulAddsLeft(b % 2, Xtime(b / 2), a);
      MulXtimeLeft(b / 2, a);
      MulOne(a);
    }
  }

  lemma MulAddsRight(a: Byte, b: Byte, b': Byte)
    ensures Mul(a, Add(b, b')) == Add(Mul(a, b), Mul(a, b'))
  {
    hide Add, Mul;
    MulAddsLeft(b, b', a);
    MulCommutes(a, Add(b, b'));
    MulCommutes(a, b);
    MulCommutes(a, b');
  }

  lemma MulXtimeRight(a: Byte, b: Byte)
    ensures Mul(a, Xtime(b)) == Xtime(Mul(a, b))
  {
    hide Xtime, Mul;
    MulCommutes(a, Xtime(b));
    MulXtimeLeft(b, a);
    MulCommutes(a, b);
  }

  lemma {:induction false} MulAssociates(a: Byte, b: Byte, c: Byte)
    ensures Mul(Mul(a, b), c) == Mul(a, Mul(b, c))
    decreases c
  {
    hide Add, Xtime;
    if c != 0 {
      var ab := Mul(a, b);
      var h, low := Mul(b, c / 2), if c % 2 == 1 then b else 0;
      MulStep(b, c);
      MulStep(ab, c);
      MulAssociates(a, b, c / 2);
      MulXtimeLeft(ab, c / 2);
      MulXtimeLeft(b, c / 2);
      MulAddsRight(a, low, Xtime(h));
      MulXtimeRight(a, h);
    }
  }

  // ---- powers of alpha

  function Exp(i: nat): (r: Byte)
  {
    if i == 0 then 1 else Xtime(Exp(i - 1))
  }

  lemma {:induction false} ExpNonZero(i: nat)
    ensures Exp(i) != 0
  {
    if i > 0 {
      ExpNonZero(i - 1);
      XtimeNonZero(Exp(i - 1));
    }
  }

  lemma {:induction false} ExpAdds(i: nat, j: nat)
    ensures Exp(i + j) == Mul(Exp(i), Exp(j))
  {
    hide Xtime;
    if j == 0 {
      MulOne(Exp(i));
    } else {
      ExpAdds(i, j - 1);
      MulXtimeRight(Exp(i), Exp(j - 1));
    }
  }

  lemma {:induction false} ExpInjective(i: nat, j: nat)
    requires i <= j && Exp(i) == Exp(j)
    ensures Exp(j - i) == 1
  {
    hide Xtime;
    if i > 0 {
      XtimeInjective(Exp(i - 1), Exp(j - 1));
      ExpInjective(i - 1, j - 1);
    }
  }
}
