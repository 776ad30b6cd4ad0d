/** The logarithm and antilogarithm tables of GF(256) and the two lookups built on them. */
module Tables {
  import opened Gf2
  import opened Gf256
  import opened Primitive
  import opened Results

  /** alpha^8 = alpha^4 + alpha^3 + alpha^2 + 1, shifted: the recurrence that fills the table. */
  lemma ExpRecurrence(i: nat)
    requires i >= 8
    ensures Exp(i) == Add(Add(Add(Exp(i - 4), Exp(i - 5)), Exp(i - 6)), Exp(i - 8))
  {
    FirstRecurrence();
    hide Exp, Add, Mul;
    var x := Exp(i - 8);
    ExpAdds(8, i - 8);
    ExpAdds(4, i - 8);
    ExpAdds(3, i - 8);
    ExpAdds(2, i - 8);
    ExpAdds(0, i - 8);
    MulAddsLeft(Add(Add(Exp(4), Exp(3)), Exp(2)), Exp(0), x);
    MulAddsLeft(Add(Exp(4), Exp(3)), Exp(2), x);
    MulAddsLeft(Exp(4), Exp(3), x);
  }

  lemma FirstRecurrence()
    ensures Exp(8) == Add(Add(Add(Exp(4), Exp(3)), Exp(2)), Exp(0))
  {
    Overflow128();
    hide Xor, Add;
    assert Exp(4) == 16;
    assert Exp(8) == 29;
    SmallSums();
  }

  lemma SmallSums()
    ensures Add(16, 8) == 24 && Add(24, 4) == 28 && Add(28, 1) == 29
  {
    hide Xor;
    XorNine(0, 0, 0, 0, 1, 0, 0, 0, 0,
            0, 0, 0, 0, 0, 1, 0, 0, 0);
    XorNine(0, 0, 0, 0, 1, 1, 0, 0, 0,
            0, 0, 0, 0, 0, 0, 1, 0, 0);
    XorNine(0, 0, 0, 0, 1, 1, 1, 0, 0,
            0, 0, 0, 0, 0, 0, 0, 0, 1);
  }

  lemma {:induction false} ShiftedOne(i: nat)
    requires i < 8
    ensures Shl(1, i) < 256 && Exp(i) == Shl(1, i)
  {
    if i > 0 {
      ShiftedOne(i - 1);
      ShlBounds(1, 1, i - 1);
      Pow2Monotone(i, 7);
      assert Pow2(7) == 128;
    }
  }

  /** Powers of alpha with any integer exponent, reduced into one period. */
  ghost function ExpZ(n: int): (r: Byte)
  {
    Exp(n % 255)
  }

  lemma ResidueAdds(m: int, n: int)
    ensures (m + n) % 255 == m % 255 + n % 255 || (m + n) % 255 == m % 255 + n % 255 - 255
  {
  }

  lemma ExpZAdds(m: int, n: int)
    ensures ExpZ(m + n) == Mul(ExpZ(m), ExpZ(n))
  {
    hide Exp, Mul;
    ResidueAdds(m, n);
    var i, j, k := m % 255, n % 255, (m + n) % 255;
    ExpAdds(i, j);
    if k == i + j - 255 {
      ExpPeriod(k);
    }
  }

  lemma ExpZLog(b: Byte)
    requires b != 0
    ensures ExpZ(Log(b)) == b
  {
    var i := Log(b);
    assert i % 255 == i;
  }

  /** Adding logarithms multiplies. */
  lemma ProductByLogs(a: Byte, b: Byte)
    requires a != 0 && b != 0
    ensures ExpZ(Log(a) + Log(b)) == Mul(a, b)
  {
    hide ExpZ, Mul;
    ExpZAdds(Log(a), Log(b));
    ExpZLog(a);
    ExpZLog(b);
  }

  /** The quotient of two non-zero elements, as `mod` forms it from a difference of logarithms. */
  ghost function Quotient(a: Byte, b: Byte): (c: Byte)
    requires a != 0 && b != 0
    ensures Mul(c, b) == a
  {
    QuotientInverts(a, b);
    ExpZ(Log(a) - Log(b))
  }

  lemma QuotientInverts(a: Byte, b: Byte)
    requires a != 0 && b != 0
    ensures Mul(ExpZ(Log(a) - Log(b)), b) == a
  {
    hide ExpZ, Mul;
    ExpZAdds(Log(a) - Log(b), Log(b));
    ExpZLog(a);
    ExpZLog(b);
  }

  lemma ScaledByLogs(e: Byte, a: Byte, b: Byte)
    requires e != 0 && a != 0 && b != 0
    ensures ExpZ(Log(e) + (Log(a) - Log(b))) == Mul(Quotient(a, b), e)
  {
    hide ExpZ, Mul;
    ExpZAdds(Log(e), Log(a) - Log(b));
    ExpZLog(e);
    MulCommutes(e, Quotient(a, b));
  }

  class QRMath {
    const expTable: array<Byte>
    const logTable: array<nat>

    ghost predicate Valid()
      reads expTable, logTable
    {
      && expTable.Length == 256
      && logTable.Length == 256
      && (forall i :: 0 <= i < 256 ==> expTable[i] == Exp(i))
      && (forall b: Byte :: 1 <= b < 256 ==> logTable[b] == Log(b))
    }

    constructor ()
      ensures Valid() && fresh(expTable) && fresh(logTable)
    {
      expTable := new Byte[256];
      logTable := new nat[256];
      new;
      FillExp(expTable);
      FillLog(expTable, logTable);
    }

    static method FillExp(exp: array<Byte>)
      requires exp.Length == 256
      modifies exp
      ensures forall i :: 0 <= i < 256 ==> exp[i] == Exp(i)
    {
      hide Exp, Add;
      for i := 0 to 8
        invariant forall k :: 0 <= k < i ==> exp[k] == Exp(k)
      {
        ShiftedOne(i);
        exp[i] := Shl(1, i);
      }
      for i := 8 to 256
        invariant forall k :: 0 <= k < i ==> exp[k] == Exp(k)
      {
        ExpRecurrence(i);
        exp[i] := Add(Add(Add(exp[i - 4], exp[i - 5]), exp[i - 6]), exp[i - 8]);
      }
    }

    static method FillLog(exp: array<Byte>, log: array<nat>)
      requires exp.Length == 256 && log.Length == 256 && exp as object != log as object
      requires forall i :: 0 <= i < 256 ==> exp[i] == Exp(i)
      modifies log
      ensures forall b: Byte :: 1 <= b < 256 ==> log[b] == Log(b)
    {
      hide Exp;
      for i := 0 to 255
        invariant forall b: Byte :: 1 <= b < 256 && Log(b) < i ==> log[b] == Log(b)
      {
        LogOfExp(i);
        log[exp[i]] := i;
      }
    }

    method Glog(n: Byte) returns (r: Result<nat>)
      requires Valid()
      ensures r == if n == 0 then Failure(LogOfZero) else Success(Log(n))
    {
      if n < 1 {
        return Failure(LogOfZero);
      }
      return Success(logTable[n]);
    }

    method Gexp(n: int) returns (r: Byte)
      requires Valid()
      ensures r == ExpZ(n)
    {
      var m := n;
      while m < 0
        invariant m % 255 == n % 255
        decreases -m
      {
        ResidueAdds(m, 255);
        m := m + 255;
      }
      while m >= 255
        invariant m >= 0 && m % 255 == n % 255
      {
        ResidueAdds(m - 255, 255);
        m := m - 255;
      }
      r := expTable[m];
    }
  }
}
