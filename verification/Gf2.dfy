/** Naturals as polynomials over GF(2): bit k is the coefficient of x^k, `Xor` is addition,
    doubling is multiplication by x.  JavaScript's `^` on the non-negative operands that the
    encoder uses is exactly `Xor`. */
module Gf2 {

  function Xor(a: nat, b: nat): (r: nat)
  {
    if a == 0 then b else if b == 0 then a
    else if a % 2 == b % 2 then 2 * Xor(a / 2, b / 2)
    else 1 + 2 * Xor(a / 2, b / 2)
  }

  function Pow2(k: nat): (r: nat)
    ensures r > 0
  {
    if k == 0 then 1 else 2 * Pow2(k - 1)
  }

  /** Carry-less product. */
  function Clmul(a: nat, b: nat): (r: nat)
  {
    if a == 0 then 0 else Xor(if a % 2 == 1 then b else 0, 2 * Clmul(a / 2, b))
  }

  /** `Xor` one bit at a time, without the zero shortcuts. */
  lemma XorStep(a: nat, b: nat)
    ensures Xor(a, b) % 2 == (if a % 2 != b % 2 then 1 else 0)
    ensures Xor(a, b) / 2 == Xor(a / 2, b / 2)
  {
  }

  lemma {:induction false} XorCommutes(a: nat, b: nat)
    ensures Xor(a, b) == Xor(b, a)
  {
    if a != 0 && b != 0 {
      XorCommutes(a / 2, b / 2);
    }
  }

  lemma {:induction false} XorAssociates(a: nat, b: nat, c: nat)
    ensures Xor(Xor(a, b), c) == Xor(a, Xor(b, c))
  {
    if a != 0 && b != 0 && c != 0 {
      XorStep(a, b);
      XorStep(b, c);
      XorStep(Xor(a, b), c);
      XorStep(a, Xor(b, c));
      XorAssociates(a / 2, b / 2, c / 2);
    }
  }

  lemma {:induction false} XorSelf(a: nat)
    ensures Xor(a, a) == 0
  {
    if a != 0 {
      XorSelf(a / 2);
    }
  }

  /** Adding the same thing twice cancels. */
  lemma XorCancels(a: nat, b: nat)
    ensures Xor(Xor(a, b), b) == a
    ensures Xor(b, Xor(b, a)) == a
  {
    XorAssociates(a, b, b);
    XorAssociates(b, b, a);
    XorSelf(b);
  }

  lemma XorZeroMeansEqual(a: nat, b: nat)
    ensures Xor(a, b) == 0 <==> a == b
  {
    XorSelf(a);
    if Xor(a, b) == 0 {
      XorCancels(a, b);
    }
  }

  /** The middle-four exchange used whenever two sums are added termwise. */
  lemma XorExchange(a: nat, b: nat, c: nat, d: nat)
    ensures Xor(Xor(a, b), Xor(c, d)) == Xor(Xor(a, c), Xor(b, d))
  {
    XorAssociates(a, b, Xor(c, d));
    XorAssociates(b, c, d);
    XorCommutes(b, c);
    XorAssociates(c, b, d);
    XorAssociates(a, c, Xor(b, d));
  }

  lemma XorDouble(a: nat, b: nat)
    ensures Xor(2 * a, 2 * b) == 2 * Xor(a, b)
  {
  }

  lemma {:induction false} XorBelow(a: nat, b: nat, k: nat)
    requires a < Pow2(k) && b < Pow2(k)
    ensures Xor(a, b) < Pow2(k)
  {
    if a != 0 && b != 0 {
      XorBelow(a / 2, b / 2, k - 1);
    }
  }

  /** Equal leading bits cancel: two numbers of exactly k + 1 bits add to at most k bits. */
  lemma {:induction false} XorLeadingCancels(a: nat, b: nat, k: nat)
    requires Pow2(k) <= a < Pow2(k + 1) && Pow2(k) <= b < Pow2(k + 1)
    ensures Xor(a, b) < Pow2(k)
  {
    if k > 0 {
      XorLeadingCancels(a / 2, b / 2, k - 1);
    }
  }

  /** A leading bit present in only one operand survives. */
  lemma {:induction false} XorLeadingSurvives(a: nat, b: nat, k: nat)
    requires Pow2(k) <= a < Pow2(k + 1) && b < Pow2(k)
    ensures Pow2(k) <= Xor(a, b) < Pow2(k + 1)
  {
    if k > 0 && b != 0 {
      XorLeadingSurvives(a / 2, b / 2, k - 1);
    }
  }

  lemma {:induction false} Pow2Monotone(j: nat, k: nat)
    requires j <= k
    ensures Pow2(j) <= Pow2(k)
  {
    if j < k {
      Pow2Monotone(j, k - 1);
    }
  }

  /** The carry-less product is additive in its first factor. */
  lemma {:induction false} ClmulAdds(a: nat, b: nat, g: nat)
    ensures Clmul(Xor(a, b), g) == Xor(Clmul(a, g), Clmul(b, g))
  {
    if a != 0 && b != 0 {
      XorStep(a, b);
      var a0, b0 := if a % 2 == 1 then g else 0, if b % 2 == 1 then g else 0;
      var ah, bh := Clmul(a / 2, g), Clmul(b / 2, g);
      ClmulAdds(a / 2, b / 2, g);
      XorExchange(a0, 2 * ah, b0, 2 * bh);
      XorDouble(ah, bh);
      XorSelf(g);
      ClmulStep(Xor(a, b), g);
    }
  }

  lemma ClmulStep(a: nat, g: nat)
    ensures Clmul(a, g) == Xor(if a % 2 == 1 then g else 0, 2 * Clmul(a / 2, g))
  {
  }

  /** A non-zero multiple of a k-bit-headed polynomial is at least as long as it. */
  lemma {:induction false} ClmulNotShort(q: nat, g: nat, k: nat)
    requires q != 0 && Pow2(k) <= g < Pow2(k + 1)
    ensures Clmul(q, g) >= Pow2(k)
    decreases q
  {
    if q == 1 {
      assert Clmul(1, g) == Xor(g, 2 * Clmul(0, g));
    } else {
      ClmulNotShort(q / 2, g, k);
      var h := Clmul(q / 2, g);
      var low := if q % 2 == 1 then g else 0;
      if Xor(low, 2 * h) < Pow2(k) {
        XorCancels(2 * h, low);
        XorCommutes(low, 2 * h);
        assert Xor(low, Xor(low, 2 * h)) == 2 * h;
        XorBelow(low, Xor(low, 2 * h), k + 1);
      }
    }
  }

  /** JavaScript's `|`. */
  function Or(a: nat, b: nat): (r: nat)
  {
    if a == 0 then b else if b == 0 then a
    else if a % 2 == 0 && b % 2 == 0 then 2 * Or(a / 2, b / 2)
    else 1 + 2 * Or(a / 2, b / 2)
  }

  /** `a << k` and `a >>> k`. */
  function Shl(a: nat, k: nat): (r: nat)
  {
    if k == 0 then a else 2 * Shl(a, k - 1)
  }

  function Shr(a: nat, k: nat): (r: nat)
  {
    if k == 0 then a else Shr(a / 2, k - 1)
  }

  lemma {:induction false} ShlBounds(a: nat, j: nat, k: nat)
    ensures Pow2(j) <= a ==> Pow2(j + k) <= Shl(a, k)
    ensures a < Pow2(j) ==> Shl(a, k) < Pow2(j + k)
  {
    if k > 0 {
      ShlBounds(a, j, k - 1);
    }
  }

  lemma {:induction false} ShrBounds(a: nat, k: nat)
    ensures Shr(a, k) == 0 <==> a < Pow2(k)
  {
    if k > 0 {
      ShrBounds(a / 2, k - 1);
    }
  }

  /** Dropping k bits distributes over `Xor`. */
  lemma {:induction false} ShrXor(a: nat, b: nat, k: nat)
    ensures Shr(Xor(a, b), k) == Xor(Shr(a, k), Shr(b, k))
  {
    if k > 0 {
      XorStep(a, b);
      ShrXor(a / 2, b / 2, k - 1);
    }
  }

  /** Bits placed below a shifted value do not disturb it, whichever way they are merged. */
  lemma {:induction false} XorMerges(high: nat, low: nat, k: nat)
    requires low < Pow2(k)
    ensures Xor(Shl(high, k), low) == Shl(high, k) + low
  {
    if k > 0 {
      XorMerges(high, low / 2, k - 1);
      XorStep(Shl(high, k), low);
    }
  }

  lemma {:induction false} OrMerges(high: nat, low: nat, k: nat)
    requires low < Pow2(k)
    ensures Or(Shl(high, k), low) == Shl(high, k) + low
  {
    if k > 0 && low != 0 {
      OrMerges(high, low / 2, k - 1);
    }
  }

  lemma {:induction false} ShrMerges(high: nat, low: nat, k: nat)
    requires low < Pow2(k)
    ensures Shr(Shl(high, k) + low, k) == high
  {
    if k > 0 {
      ShrMerges(high, low / 2, k - 1);
    }
  }

  /** The number of binary digits. */
  function DigitCount(v: nat): (r: nat)
  {
    if v == 0 then 0 else 1 + DigitCount(v / 2)
  }

  /** A digit count fixes which powers of two a number lies between. */
  lemma {:induction false} DigitCountBounds(v: nat, k: nat)
    ensures DigitCount(v) <= k <==> v < Pow2(k)
  {
    if v != 0 && k != 0 {
      DigitCountBounds(v / 2, k - 1);
    }
  }

  lemma {:induction false} ClmulPow2(k: nat, g: nat)
    ensures Clmul(Pow2(k), g) == Shl(g, k)
  {
    if k == 0 {
      assert Clmul(1, g) == Xor(g, 2 * Clmul(0, g));
    } else {
      ClmulPow2(k - 1, g);
    }
  }
}
