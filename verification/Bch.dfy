/** The BCH codes that protect the format and the version information. */
module Bch {
  import opened Gf2

  const G15: nat := 1335       // x^10 + x^8 + x^5 + x^4 + x^2 + x + 1
  const G18: nat := 7973       // x^12 + x^11 + x^10 + x^9 + x^8 + x^5 + x^2 + 1
  const G15_MASK: nat := 21522 // 101 0100 0001 0010

  /** `code` carries `data` above its k check bits and is a multiple of the generator g over GF(2). */
  ghost predicate IsCodeword(code: nat, data: nat, g: nat, k: nat)
  {
    Shr(code, k) == data && exists q: nat :: Clmul(q, g) == code
  }

  /** There is exactly one codeword for given data, so `IsCodeword` determines the encoder. */
  lemma CodewordUnique(c1: nat, c2: nat, data: nat, g: nat, k: nat)
    requires Pow2(k) <= g < Pow2(k + 1)
    requires IsCodeword(c1, data, g, k) && IsCodeword(c2, data, g, k)
    ensures c1 == c2
  {
    var q1: nat :| Clmul(q1, g) == c1;
    var q2: nat :| Clmul(q2, g) == c2;
    ClmulAdds(q1, q2, g);
    ShrXor(c1, c2, k);
    XorSelf(data);
    ShrBounds(Xor(c1, c2), k);
    if Xor(q1, q2) != 0 {
      ClmulNotShort(Xor(q1, q2), g, k);
    }
    XorZeroMeansEqual(q1, q2);
  }

  method BchDigit(data: nat) returns (digit: nat)
    ensures digit == DigitCount(data)
  {
    digit := 0;
    var rest := data;
    while rest != 0
      invariant digit + DigitCount(rest) == DigitCount(data)
    {
      digit, rest := digit + 1, rest / 2;
    }
  }

  /** One division step: aligning the generator under the leading digit shortens the remainder
      and changes it by a multiple of the generator. */
  lemma DivisionStep(start: nat, d: nat, q: nat, g: nat, shift: nat)
    requires g != 0 && DigitCount(d) == DigitCount(g) + shift
    requires Xor(start, d) == Clmul(q, g)
    ensures DigitCount(Xor(d, Shl(g, shift))) < DigitCount(d)
    ensures Xor(start, Xor(d, Shl(g, shift))) == Clmul(Xor(q, Pow2(shift)), g)
  {
    hide Xor, DigitCount;
    AlignedLeadingCancels(d, g, shift);
    ClmulAdds(q, Pow2(shift), g);
    ClmulPow2(shift, g);
    XorAssociates(start, d, Shl(g, shift));
  }

  lemma AlignedLeadingCancels(d: nat, g: nat, shift: nat)
    requires g != 0 && DigitCount(d) == DigitCount(g) + shift
    ensures DigitCount(Xor(d, Shl(g, shift))) < DigitCount(d)
  {
    var k := DigitCount(g) - 1;
    DigitCountBounds(g, k);
    DigitCountBounds(g, k + 1);
    DigitCountBounds(d, k + shift);
    DigitCountBounds(d, k + shift + 1);
    ShlBounds(g, k, shift);
    ShlBounds(g, k + 1, shift);
    XorLeadingCancels(d, Shl(g, shift), k + shift);
    DigitCountBounds(Xor(d, Shl(g, shift)), k + shift);
  }

  /** A remainder shorter than the generator, put below the data, makes a codeword. */
  lemma RemainderCompletes(data: nat, d: nat, q: nat, g: nat, k: nat)
    requires DigitCount(d) <= k && Xor(Shl(data, k), d) == Clmul(q, g)
    ensures IsCodeword(Or(Shl(data, k), d), data, g, k)
  {
    hide Xor, Clmul, Shl, Shr, Or, DigitCount, Pow2;
    DigitCountBounds(d, k);
    XorMerges(data, d, k);
    OrMerges(data, d, k);
    ShrMerges(data, d, k);
    assert Clmul(q, g) == Or(Shl(data, k), d);
  }

  /** The division loop that both routines share: the k check bits for `data`. */
  method BchCheckBits(data: nat, g: nat, k: nat) returns (d: nat)
    requires DigitCount(g) == k + 1
    ensures IsCodeword(Or(Shl(data, k), d), data, g, k)
  {
    d := Shl(data, k);
    ghost var start, q: nat := d, 0;
    XorSelf(d);
    var gd := BchDigit(g);
    var dd := BchDigit(d);
    while dd >= gd
      invariant dd == DigitCount(d)
      invariant Xor(start, d) == Clmul(q, g)
      decreases dd
    {
      DivisionStep(start, d, q, g, dd - gd);
      q := Xor(q, Pow2(dd - gd));
      d := Xor(d, Shl(g, dd - gd));
      dd := BchDigit(d);
    }
    RemainderCompletes(data, d, q, g, k);
  }

  /** The format code word: five bits of level and mask, ten check bits, then the fixed mask
      that keeps the field from being all light. */
  method BchTypeInfo(data: nat) returns (bits: nat)
    ensures IsCodeword(Xor(bits, G15_MASK), data, G15, 10)
  {
    var d := BchCheckBits(data, G15, 10);
    bits := Xor(Or(Shl(data, 10), d), G15_MASK);
    XorCancels(Or(Shl(data, 10), d), G15_MASK);
  }

  /** The version code word: six bits of version number and twelve check bits. */
  method BchTypeNumber(data: nat) returns (bits: nat)
    ensures IsCodeword(bits, data, G18, 12)
  {
    var d := BchCheckBits(data, G18, 12);
    bits := Or(Shl(data, 12), d);
  }
}
