/** The order of the data modules, described without visits (section 7.7.3 of ISO/IEC 18004): strips of two columns
    from the right, read in turn upwards and downwards, the right module of a row before the left one. */
module ZigZagOrder {
  import opened Blocks
  import opened Layout
  import opened Capacity
  import opened ZigZag

  /** The right column of the strip that holds a column; column 6 is in none. */
  function StripOf(c: nat): (right: nat)
  {
    if c > 6 then (if c % 2 == 0 then c else c + 1) else if c % 2 == 1 then c else c + 1
  }

  /** The strips read upwards: every other one, starting with the rightmost. */
  predicate Upwards(right: nat)
  {
    if right > 6 then right % 4 == 0 else right == 3
  }

  /** Module x is read before module y. */
  predicate Earlier(x: (int, int), y: (int, int))
    requires x.1 >= 0 && y.1 >= 0
  {
    var s := StripOf(x.1);
    s > StripOf(y.1)
    || (s == StripOf(y.1)
        && ((if Upwards(s) then x.0 > y.0 else x.0 < y.0) || (x.0 == y.0 && x.1 > y.1)))
  }

  predicate DataModule(typeNumber: nat, x: (int, int))
  {
    InSymbol(typeNumber, x.0, x.1) && !IsFunction(typeNumber, x.0, x.1)
  }

  /** The data modules read before a module. */
  function ReadBefore(typeNumber: nat, y: (int, int)): (s: CellSet)
    requires y.1 >= 0
  {
    set r: int, c: int | 0 <= r < ModuleCount(typeNumber) && 0 <= c < ModuleCount(typeNumber)
                         && DataModule(typeNumber, (r, c)) && Earlier((r, c), y) :: (r, c)
  }

  // ---- strips are pairs

  lemma PairAndStrip(n: nat, m: nat, c: nat)
    requires n == 4 * m + 1 && n >= 21 && c < n && c != 6
    ensures 2 * PairOf(n, c) == n - 1 - StripOf(c) - if c < 6 then 1 else 0
    ensures if c < 6 then StripOf(c) <= 5 else StripOf(c) >= 8
  {
    var h := c / 2;
    if c > 6 {
      if c % 2 == 0 {
        HalfOf(n - 1 - c, 2 * m - h, 0);
      } else {
        HalfOf(n - 1 - c, 2 * m - h - 1, 1);
      }
    } else if c % 2 == 0 {
      HalfOf(n - 2 - c, 2 * m - h - 1, 1);
    } else {
      HalfOf(n - 2 - c, 2 * m - h - 1, 0);
    }
  }

  lemma HalfOf(x: int, q: int, e: int)
    requires x == 2 * q + e && 0 <= e <= 1
    ensures x / 2 == q
  {
  }

  lemma StripDirection(n: nat, m: nat, c: nat)
    requires n == 4 * m + 1 && n >= 21 && c < n && c != 6
    ensures PairOf(n, c) % 2 == 0 <==> Upwards(StripOf(c))
  {
    PairAndStrip(n, m, c);
    hide StripOf, PairOf;
  }

  lemma SameStrip(n: nat, m: nat, c: nat, d: nat)
    requires n == 4 * m + 1 && n >= 21 && c < n && d < n && c != 6 && d != 6
    ensures StripOf(c) > StripOf(d) <==> PairOf(n, c) < PairOf(n, d)
  {
    PairAndStrip(n, m, c);
    PairAndStrip(n, m, d);
    hide StripOf, PairOf;
  }

  lemma EarlierIs(typeNumber: nat, x: (int, int), y: (int, int))
    requires typeNumber >= 1 && InSymbol(typeNumber, x.0, x.1) && InSymbol(typeNumber, y.0, y.1)
    requires x.1 != 6 && y.1 != 6
    ensures var n := ModuleCount(typeNumber);
            Earlier(x, y) <==>
              PairOf(n, x.1) < PairOf(n, y.1)
              || (PairOf(n, x.1) == PairOf(n, y.1) && StepOf(n, x.0, x.1) < StepOf(n, y.0, y.1))
  {
    var n := ModuleCount(typeNumber);
    SameStrip(n, typeNumber + 4, x.1, y.1);
    SameStrip(n, typeNumber + 4, y.1, x.1);
    if StripOf(x.1) == StripOf(y.1) {
      StepInStrip(n, typeNumber + 4, x, y);
    }
  }

  lemma StepInStrip(n: nat, m: nat, x: (int, int), y: (int, int))
    requires n == 4 * m + 1 && n >= 21 && 0 <= x.1 < n && 0 <= y.1 < n && x.1 != 6 && y.1 != 6
    requires StripOf(x.1) == StripOf(y.1)
    ensures StepOf(n, x.0, x.1) < StepOf(n, y.0, y.1) <==>
      (if Upwards(StripOf(x.1)) then x.0 > y.0 else x.0 < y.0) || (x.0 == y.0 && x.1 > y.1)
  {
    hide PairOf, StepOf, StripOf, Upwards;
    StripDirection(n, m, x.1);
    StripDirection(n, m, y.1);
    OddNumber(2 * m);
    var up, s := Upwards(StripOf(x.1)), StripOf(x.1);
    var a, b := if up then n - 1 - x.0 else x.0, if up then n - 1 - y.0 else y.0;
    StepIs(n, x.0, x.1);
    StepIs(n, y.0, y.1);
    TwoAndOne(a, s - x.1, b, s - y.1);
  }

  lemma TwoAndOne(a: int, d: int, b: int, e: int)
    requires 0 <= d <= 1 && 0 <= e <= 1
    ensures 2 * a + d < 2 * b + e <==> a < b || (a == b && d < e)
  {
  }

  /** The step within a strip: two for every row, and one more for the left module. */
  lemma StepIs(n: nat, r: int, c: nat)
    requires c < n && c != 6 && n % 2 == 1
    ensures StepOf(n, r, c) == 2 * (if PairOf(n, c) % 2 == 0 then n - 1 - r else r) + (StripOf(c) - c)
    ensures c <= StripOf(c) <= c + 1
  {
    hide PairOf;
  }

  // ---- counting

  lemma {:induction false} InPairIff(typeNumber: nat, p: nat, k: nat, x: (int, int))
    requires typeNumber >= 1 && p < PairCount(ModuleCount(typeNumber)) && k <= 2 * ModuleCount(typeNumber)
    ensures x in PairCells(typeNumber, p, k) <==>
      DataModule(typeNumber, x) && x.1 != 6 && PairOf(ModuleCount(typeNumber), x.1) == p
      && StepOf(ModuleCount(typeNumber), x.0, x.1) < k
  {
    hide IsFunction, CellRow, CellColumn, PairOf, StepOf;
    var n := ModuleCount(typeNumber);
    SideOf(typeNumber);
    if DataModule(typeNumber, x) && x.1 != 6 {
      VisitOfCell(n, x.0, x.1);
    }
    if k > 0 {
      InPairIff(typeNumber, p, k - 1, x);
      CellOfVisit(n, p, k - 1);
    }
  }

  lemma {:induction false} InAllIff(typeNumber: nat, p: nat, x: (int, int))
    requires typeNumber >= 1 && p <= PairCount(ModuleCount(typeNumber))
    ensures x in AllCells(typeNumber, p) <==>
      DataModule(typeNumber, x) && x.1 != 6 && PairOf(ModuleCount(typeNumber), x.1) < p
  {
    hide IsFunction, PairOf, StepOf, PairCells;
    var n := ModuleCount(typeNumber);
    SideOf(typeNumber);
    if DataModule(typeNumber, x) && x.1 != 6 {
      VisitOfCell(n, x.0, x.1);
    }
    if p > 0 {
      InAllIff(typeNumber, p - 1, x);
      InPairIff(typeNumber, p - 1, 2 * n, x);
    }
  }

  lemma {:induction false} PairSize(typeNumber: nat, p: nat, k: nat)
    requires typeNumber >= 1 && p < PairCount(ModuleCount(typeNumber)) && k <= 2 * ModuleCount(typeNumber)
    ensures |PairCells(typeNumber, p, k)| == DataInPair(typeNumber, p, k)
  {
    hide IsFunction, CellRow, CellColumn, PairOf, StepOf, IsData;
    if k > 0 {
      var n := ModuleCount(typeNumber);
      SideOf(typeNumber);
      PairSize(typeNumber, p, k - 1);
      CellOfVisit(n, p, k - 1);
      InPairIff(typeNumber, p, k - 1, (CellRow(n, p, k - 1), CellColumn(n, p, k - 1)));
    }
  }

  lemma {:induction false} AllCount(typeNumber: nat, p: nat)
    requires typeNumber >= 1 && p <= PairCount(ModuleCount(typeNumber))
    ensures |AllCells(typeNumber, p)| == DataBefore(typeNumber, p)
  {
    hide PairCells, DataInPair, PairOf, StepOf, IsFunction;
    if p > 0 {
      var n := ModuleCount(typeNumber);
      AllCount(typeNumber, p - 1);
      PairSize(typeNumber, p - 1, 2 * n);
      PairsDisjoint(typeNumber, p - 1, 2 * n);
      DisjointSize(AllCells(typeNumber, p - 1), PairCells(typeNumber, p - 1, 2 * n));
    }
  }

  lemma PairsDisjoint(typeNumber: nat, p: nat, k: nat)
    requires typeNumber >= 1 && p < PairCount(ModuleCount(typeNumber)) && k <= 2 * ModuleCount(typeNumber)
    ensures AllCells(typeNumber, p) !! PairCells(typeNumber, p, k)
  {
    hide AllCells, PairCells, DataModule, PairOf, StepOf;
    forall x | x in AllCells(typeNumber, p)
      ensures x !in PairCells(typeNumber, p, k)
    {
      InAllIff(typeNumber, p, x);
      InPairIff(typeNumber, p, k, x);
    }
  }

  /** The codeword bit that a data module takes is the one whose number is the count of the data modules before it. */
  lemma RankCounts(typeNumber: nat, r: int, c: int)
    requires typeNumber >= 1 && DataModule(typeNumber, (r, c))
    ensures var n := ModuleCount(typeNumber);
            c != 6 && PairOf(n, c) >= 0 && StepOf(n, r, c) >= 0
            && Rank(typeNumber, PairOf(n, c), StepOf(n, r, c)) == |ReadBefore(typeNumber, (r, c))|
  {
    hide IsFunction, PairOf, StepOf, AllCells, PairCells, DataBefore, DataInPair, Earlier, StripOf, PairCount;
    var n := ModuleCount(typeNumber);
    SideOf(typeNumber);
    DataCellVisited(typeNumber, r, c);
    VisitOfCell(n, r, c);
    var p, k := PairOf(n, c), StepOf(n, r, c);
    AllCount(typeNumber, p);
    PairSize(typeNumber, p, k);
    PairsDisjoint(typeNumber, p, k);
    DisjointSize(AllCells(typeNumber, p), PairCells(typeNumber, p, k));
    forall x: (int, int)
      ensures x in ReadBefore(typeNumber, (r, c)) <==> x in AllCells(typeNumber, p) + PairCells(typeNumber, p, k)
    {
      InAllIff(typeNumber, p, x);
      InPairIff(typeNumber, p, k, x);
      if DataModule(typeNumber, x) {
        DataCellVisited(typeNumber, x.0, x.1);
        EarlierIs(typeNumber, x, (r, c));
      }
    }
    assert ReadBefore(typeNumber, (r, c)) == AllCells(typeNumber, p) + PairCells(typeNumber, p, k);
  }
}
