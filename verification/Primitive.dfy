/** alpha is primitive: its powers alpha^0 .. alpha^254 are exactly the 255 non-zero bytes.
    This is what makes logarithm and antilogarithm tables inverse to each other. */
module Primitive {
  import opened Gf256
  import opened Gf2

  // ---- alpha^17 = 152 generates a copy of GF(16): writing f for it, f^4 = f + 1

  /** Append one binary digit. */
  function Snoc(a: nat, x: nat): (r: nat)
  {
    2 * a + x
  }

  function Differ(x: nat, y: nat): (r: nat)
  {
    if x == y then 0 else 1
  }

  lemma SnocParts(a: nat, x: nat)
    requires x < 2
    ensures Snoc(a, x) / 2 == a && Snoc(a, x) % 2 == x
  {
  }

  lemma PartsSnoc(r: nat)
    ensures r == Snoc(r / 2, r % 2)
  {
  }

  lemma XorSnoc(a: nat, b: nat, x: nat, y: nat)
    requires x < 2 && y < 2
    ensures Xor(Snoc(a, x), Snoc(b, y)) == Snoc(Xor(a, b), Differ(x, y))
  {
    hide Xor, Snoc;
    SnocParts(a, x);
    SnocParts(b, y);
    XorStep(Snoc(a, x), Snoc(b, y));
    PartsSnoc(Xor(Snoc(a, x), Snoc(b, y)));
  }

  /** The number with the given nine bits. */
  function Nine(b8: nat, b7: nat, b6: nat, b5: nat, b4: nat, b3: nat, b2: nat, b1: nat, b0: nat): (r: nat)
  {
    Snoc(Snoc(Snoc(Snoc(Snoc(Snoc(Snoc(Snoc(Snoc(0, b8), b7), b6), b5), b4), b3), b2), b1), b0)
  }

  /** `Xor` written out for nine bits, which makes the concrete sums below linear arithmetic. */
  lemma XorNine(a8: nat, a7: nat, a6: nat, a5: nat, a4: nat, a3: nat, a2: nat, a1: nat, a0: nat,
                b8: nat, b7: nat, b6: nat, b5: nat, b4: nat, b3: nat, b2: nat, b1: nat, b0: nat)
    requires a8 < 2 && a7 < 2 && a6 < 2 && a5 < 2 && a4 < 2 && a3 < 2 && a2 < 2 && a1 < 2 && a0 < 2
    requires b8 < 2 && b7 < 2 && b6 < 2 && b5 < 2 && b4 < 2 && b3 < 2 && b2 < 2 && b1 < 2 && b0 < 2
    ensures Xor(Nine(a8, a7, a6, a5, a4, a3, a2, a1, a0), Nine(b8, b7, b6, b5, b4, b3, b2, b1, b0))
         == Nine(Differ(a8, b8), Differ(a7, b7), Differ(a6, b6), Differ(a5, b5), Differ(a4, b4),
                 Differ(a3, b3), Differ(a2, b2), Differ(a1, b1), Differ(a0, b0))
  {
    assert Xor(0, 0) == 0;
    hide Xor, Differ, Snoc;
    XorSnoc(0, 0, a8, b8);
    var a, b := Snoc(0, a8), Snoc(0, b8);
    XorSnoc(a, b, a7, b7);
    a, b := Snoc(a, a7), Snoc(b, b7);
    XorSnoc(a, b, a6, b6);
    a, b := Snoc(a, a6), Snoc(b, b6);
    XorSnoc(a, b, a5, b5);
    a, b := Snoc(a, a5), Snoc(b, b5);
    XorSnoc(a, b, a4, b4);
    a, b := Snoc(a, a4), Snoc(b, b4);
    XorSnoc(a, b, a3, b3);
    a, b := Snoc(a, a3), Snoc(b, b3);
    XorSnoc(a, b, a2, b2);
    a, b := Snoc(a, a2), Snoc(b, b2);
    XorSnoc(a, b, a1, b1);
    a, b := Snoc(a, a1), Snoc(b, b1);
    XorSnoc(a, b, a0, b0);
  }

  lemma Overflow128()
    ensures Xtime(128) == 29
  {
    hide Xor;
    XorNine(1, 0, 0, 0, 0, 0, 0, 0, 0,
            1, 0, 0, 0, 1, 1, 1, 0, 1);
  }

  lemma Overflow232()
    ensures Xtime(232) == 205
  {
    hide Xor;
    XorNine(1, 1, 1, 0, 1, 0, 0, 0, 0,
            1, 0, 0, 0, 1, 1, 1, 0, 1);
  }

  lemma Overflow205()
    ensures Xtime(205) == 135
  {
    hide Xor;
    XorNine(1, 1, 0, 0, 1, 1, 0, 1, 0,
            1, 0, 0, 0, 1, 1, 1, 0, 1);
  }

  lemma Overflow135()
    ensures Xtime(135) == 19
  {
    hide Xor;
    XorNine(1, 0, 0, 0, 0, 1, 1, 1, 0,
            1, 0, 0, 0, 1, 1, 1, 0, 1);
  }

  lemma Overflow152()
    ensures Xtime(152) == 45
  {
    hide Xor;
    XorNine(1, 0, 0, 1, 1, 0, 0, 0, 0,
            1, 0, 0, 0, 1, 1, 1, 0, 1);
  }

  lemma Overflow180()
    ensures Xtime(180) == 117
  {
    hide Xor;
    XorNine(1, 0, 1, 1, 0, 1, 0, 0, 0,
            1, 0, 0, 0, 1, 1, 1, 0, 1);
  }

  lemma Overflow234()
    ensures Xtime(234) == 201
  {
    hide Xor;
    XorNine(1, 1, 1, 0, 1, 0, 1, 0, 0,
            1, 0, 0, 0, 1, 1, 1, 0, 1);
  }

  lemma Overflow201()
    ensures Xtime(201) == 143
  {
    hide Xor;
    XorNine(1, 1, 0, 0, 1, 0, 0, 1, 0,
            1, 0, 0, 0, 1, 1, 1, 0, 1);
  }

  lemma Sum117and143()
    ensures Add(117, 143) == 250
  {
    hide Xor;
    XorNine(0, 0, 1, 1, 1, 0, 1, 0, 1,
            0, 1, 0, 0, 0, 1, 1, 1, 1);
  }

  lemma Sum180and250()
    ensures Add(180, 250) == 78
  {
    hide Xor;
    XorNine(0, 1, 0, 1, 1, 0, 1, 0, 0,
            0, 1, 1, 1, 1, 1, 0, 1, 0);
  }

  lemma Overflow156()
    ensures Xtime(156) == 37
  {
    hide Xor;
    XorNine(1, 0, 0, 1, 1, 1, 0, 0, 0,
            1, 0, 0, 0, 1, 1, 1, 0, 1);
  }

  lemma Overflow148()
    ensures Xtime(148) == 53
  {
    hide Xor;
    XorNine(1, 0, 0, 1, 0, 1, 0, 0, 0,
            1, 0, 0, 0, 1, 1, 1, 0, 1);
  }

  lemma Sum74and106()
    ensures Add(74, 106) == 32
  {
    hide Xor;
    XorNine(0, 0, 1, 0, 0, 1, 0, 1, 0,
            0, 0, 1, 1, 0, 1, 0, 1, 0);
  }

  lemma Sum37and32()
    ensures Add(37, 32) == 5
  {
    hide Xor;
    XorNine(0, 0, 0, 1, 0, 0, 1, 0, 1,
            0, 0, 0, 1, 0, 0, 0, 0, 0);
  }

  lemma Sum156and5()
    ensures Add(156, 5) == 153
  {
    hide Xor;
    XorNine(0, 1, 0, 0, 1, 1, 1, 0, 0,
            0, 0, 0, 0, 0, 0, 1, 0, 1);
  }

  lemma Sum152and1()
    ensures Add(152, 1) == 153
  {
    hide Xor;
    XorNine(0, 1, 0, 0, 1, 1, 0, 0, 0,
            0, 0, 0, 0, 0, 0, 0, 0, 1);
  }

  lemma Sum78and152()
    ensures Add(78, 152) == 214
  {
    hide Xor;
    XorNine(0, 0, 1, 0, 0, 1, 1, 1, 0,
            0, 1, 0, 0, 1, 1, 0, 0, 0);
  }

  lemma Square152()
    ensures Mul(152, 152) == 78
  {
    hide Add;
    Overflow152();
    Overflow180();
    Overflow234();
    Overflow201();
    MulOne(143);
    assert Mul(201, 2) == 143;
    assert Mul(234, 4) == 143;
    Sum117and143();
    assert Mul(117, 9) == 250;
    Sum180and250();
    assert Mul(180, 19) == 78;
    assert Mul(90, 38) == 78;
    assert Mul(45, 76) == 78;
    assert Mul(152, 152) == 78;
  }

  lemma Square78()
    ensures Mul(78, 78) == 153
  {
    hide Add;
    Overflow156();
    Overflow148();
    MulOne(106);
    assert Mul(53, 2) == 106;
    assert Mul(148, 4) == 106;
    Sum74and106();
    assert Mul(74, 9) == 32;
    Sum37and32();
    assert Mul(37, 19) == 5;
    Sum156and5();
    assert Mul(156, 39) == 153;
    assert Mul(78, 78) == 153;
  }

  lemma SmallPowers()
    ensures Exp(15) == 38 && Exp(17) == 152
  {
    Overflow128();
    Overflow232();
    Overflow205();
    Overflow135();
    assert Exp(7) == 128;
    hide Xor;
    assert Exp(9) == 58 && Exp(11) == 232 && Exp(13) == 135;
  }

  lemma FourthPower()
    ensures Exp(68) == Add(Exp(17), 1) == 153 && Exp(34) == 78 && Exp(17) == 152
  {
    hide Exp, Mul, Add;
    SmallPowers();
    Square152();
    Square78();
    ExpAdds(17, 17);
    ExpAdds(34, 34);
    Sum152and1();
  }

  /** Squaring is additive in characteristic 2. */
  lemma SquareAdds(a: Byte, b: Byte)
    ensures Mul(Add(a, b), Add(a, b)) == Add(Mul(a, a), Mul(b, b))
  {
    hide Add, Mul;
    MulAddsLeft(a, b, Add(a, b));
    MulAddsRight(a, a, b);
    MulAddsRight(b, a, b);
    MulCommutes(a, b);
    AddCommutes(Mul(b, a), Mul(b, b));
    AddExchange(Mul(a, a), Mul(a, b), Mul(b, b), Mul(a, b));
    AddLaws(Mul(a, b));
    AddLaws(Add(Mul(a, a), Mul(b, b)));
  }

  /** f^16 = f, hence alpha^255 = 1. */
  lemma PowerIsPeriodic()
    ensures Exp(255) == 1
  {
    hide Exp, Add, Mul;
    FourthPower();
    MulOne(1);
    SquareAdds(Exp(17), 1);
    ExpAdds(68, 68);
    ExpAdds(17, 17);
    SquareAdds(Exp(34), 1);
    ExpAdds(136, 136);
    ExpAdds(34, 34);
    AddCancels(Exp(17), 1);
    ExpInjective(17, 272);
  }

  /** The powers at the three maximal proper divisors of 255 are not 1. */
  lemma KnownPowers()
    ensures Exp(15) != 1 && Exp(51) != 1 && Exp(85) != 1
  {
    hide Exp, Mul, Add;
    SmallPowers();
    FourthPower();
    ExpAdds(17, 51);
    ExpAdds(17, 68);
    ExpAdds(17, 17);
    MulOne(152);
    MulAddsRight(152, 152, 1);
    Sum78and152();
  }

  lemma {:induction false} ExpMultiple(d: nat, m: nat)
    requires Exp(d) == 1
    ensures Exp(m * d) == 1
  {
    if m > 0 {
      ExpMultiple(d, m - 1);
      ExpAdds((m - 1) * d, d);
      MulOne(1);
      assert (m - 1) * d + d == m * d;
    }
  }

  lemma MulAtLeast(a: nat, b: nat, c: nat, d: nat)
    requires a >= c && b >= d
    ensures a * b >= c * d
  {
    assert a * b == c * d + (a - c) * b + c * (b - d);
  }

  lemma ProperDivisors(d: nat, k: nat)
    requires d * k == 255 && d < 255
    ensures d in {1, 3, 5, 15, 17, 51, 85}
  {
    if d < 16 {
      assert d in {1, 2, 3, 4, 5, 6, 7, 8, 9, 10, 11, 12, 13, 14, 15};
    } else {
      if k >= 16 {
        MulAtLeast(d, k, 16, 16);
      }
      assert k in {1, 2, 3, 4, 5, 6, 7, 8, 9, 10, 11, 12, 13, 14, 15};
    }
  }

  /** No power below the 255th is 1: otherwise Euclid's algorithm finds a proper divisor of 255
      whose power is 1, and then alpha^15, alpha^51 or alpha^85 would be 1. */
  lemma {:induction false} OrderIs255(d: nat)
    requires 0 < d < 255
    ensures Exp(d) != 1
    decreases d
  {
    hide Exp;
    if Exp(d) == 1 {
      KnownPowers();
      PowerIsPeriodic();
      var n, k := 255, 0;
      while n >= d
        invariant n >= 0 && Exp(n) == 1
        invariant n + d * k == 255
      {
        ExpAdds(n - d, d);
        MulOne(Exp(n - d));
        assert d * (k + 1) == d * k + d;
        n, k := n - d, k + 1;
      }
      if n > 0 {
        OrderIs255(n);
      } else {
        ProperDivisors(d, k);
        if 15 % d == 0 {
          ExpMultiple(d, 15 / d);
        } else if 51 % d == 0 {
          ExpMultiple(d, 51 / d);
        }
      }
    }
  }

  lemma {:induction false} ExpDistinct(i: nat, j: nat)
    requires i < 255 && j < 255
    ensures Exp(i) == Exp(j) <==> i == j
  {
    if Exp(i) == Exp(j) {
      if i < j {
        ExpInjective(i, j);
        OrderIs255(j - i);
      } else if j < i {
        ExpInjective(j, i);
        OrderIs255(i - j);
      }
    }
  }

  lemma {:induction false} ExpPeriod(n: nat)
    ensures Exp(n + 255) == Exp(n)
  {
    PowerIsPeriodic();
    ExpAdds(n, 255);
    MulOne(Exp(n));
  }

  /** alpha^k plus 1 vanishes only where the order allows. */
  lemma ExpPlusExpNonZero(i: nat, j: nat)
    requires i < 255 && j < 255 && i != j
    ensures Add(Exp(i), Exp(j)) != 0
  {
    ExpDistinct(i, j);
    AddZeroMeansEqual(Exp(i), Exp(j));
  }

  // ---- every non-zero byte is a power of alpha, by counting

  lemma {:induction false} Pigeonhole(s: seq<nat>, t: set<nat>)
    requires forall i, j :: 0 <= i < j < |s| ==> s[i] != s[j]
    requires forall i :: 0 <= i < |s| ==> s[i] in t
    requires |s| == |t|
    ensures forall x :: x in t ==> x in s
    decreases |s|
  {
    if s != [] {
      var last := s[|s| - 1];
      var s', t' := s[..|s| - 1], t - {last};
      Pigeonhole(s', t');
      assert forall x :: x in t' ==> x in s;
    }
  }

  ghost function UpTo(n: nat): (r: set<nat>)
    ensures |r| == n
    ensures forall x :: x in r <==> 1 <= x <= n
  {
    if n == 0 then {} else UpTo(n - 1) + {n}
  }

  lemma EveryNonZeroIsAPower(b: Byte)
    requires b != 0
    ensures exists i :: 0 <= i < 255 && Exp(i) == b
  {
    hide Exp, UpTo;
    var powers: seq<nat> := seq(255, i requires 0 <= i < 255 => Exp(i));
    var nonZero := UpTo(255);
    forall i | 0 <= i < 255
      ensures powers[i] in nonZero
    {
      ExpNonZero(i);
    }
    forall i, j | 0 <= i < j < 255
      ensures powers[i] != powers[j]
    {
      ExpDistinct(i, j);
    }
    Pigeonhole(powers, nonZero);
    assert b in nonZero;
    var i :| 0 <= i < |powers| && powers[i] == b;
    assert Exp(i) == b;
  }

  /** The discrete logarithm. */
  ghost function Log(b: Byte): (i: nat)
    requires b != 0
    ensures i < 255 && Exp(i) == b
  {
    EveryNonZeroIsAPower(b);
    var i :| 0 <= i < 255 && Exp(i) == b;
    i
  }

  lemma LogOfExp(i: nat)
    requires i < 255
    ensures Exp(i) != 0 && Log(Exp(i)) == i
  {
    ExpNonZero(i);
    ExpDistinct(i, Log(Exp(i)));
  }

  /** No zero divisors. */
  lemma MulNonZero(a: Byte, b: Byte)
    ensures Mul(a, b) == 0 <==> a == 0 || b == 0
  {
    hide Exp, Mul;
    MulZero(b);
    MulZero(a);
    MulCommutes(a, b);
    if a != 0 && b != 0 {
      ExpAdds(Log(a), Log(b));
      ExpNonZero(Log(a) + Log(b));
    }
  }
}
