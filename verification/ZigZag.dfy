/** The order in which data modules are visited (section 7.7.3 of ISO/IEC 18004): pairs of columns
    from the right, alternately upwards and downwards, skipping column 6.  A visit is named by the
    pair p and the step k within it. */
module ZigZag {
  import opened Blocks
  import opened Layout
  import opened Capacity

  /** The right column of pair p. */
  function PairColumn(n: nat, p: nat): (c: int)
  {
    if n - 1 - 2 * p > 6 then n - 1 - 2 * p else n - 2 - 2 * p
  }

  function PairCount(n: nat): (p: nat)
    requires n > 0
  {
    (n - 1) / 2
  }

  function CellRow(n: nat, p: nat, k: nat): (r: int)
  {
    if p % 2 == 0 then n - 1 - k / 2 else k / 2
  }

  function CellColumn(n: nat, p: nat, k: nat): (c: int)
  {
    PairColumn(n, p) - k % 2
  }

  /** The visit of a module. */
  function PairOf(n: nat, c: int): (p: int)
  {
    if c > 6 then (n - 1 - c) / 2 else (n - 2 - c) / 2
  }

  function StepOf(n: nat, r: int, c: int): (k: int)
  {
    var p := PairOf(n, c);
    2 * (if p % 2 == 0 then n - 1 - r else r) + (if c > 6 then (n - 1 - c) % 2 else (n - 2 - c) % 2)
  }

  /** Side lengths of symbols are odd. */
  predicate Side(n: nat)
  {
    n >= 21 && n % 2 == 1
  }

  lemma SideOf(typeNumber: nat)
    requires typeNumber >= 1
    ensures Side(ModuleCount(typeNumber))
  {
    OddNumber(2 * typeNumber + 8);
  }

  lemma OddNumber(m: nat)
    ensures (2 * m + 1) % 2 == 1
  {
  }

  /** Every module outside column 6 has a visit ... */
  lemma VisitOfCell(n: nat, r: int, c: int)
    requires Side(n) && 0 <= r < n && 0 <= c < n && c != 6
    ensures 0 <= PairOf(n, c) < PairCount(n)
    ensures 0 <= StepOf(n, r, c) < 2 * n
    ensures CellRow(n, PairOf(n, c), StepOf(n, r, c)) == r
    ensures CellColumn(n, PairOf(n, c), StepOf(n, r, c)) == c
  {
  }

  /** ... and every visit is of exactly one such module. */
  lemma CellOfVisit(n: nat, p: nat, k: nat)
    requires Side(n) && p < PairCount(n) && k < 2 * n
    ensures 0 <= CellRow(n, p, k) < n && 0 <= CellColumn(n, p, k) < n && CellColumn(n, p, k) != 6
    ensures PairOf(n, CellColumn(n, p, k)) == p
    ensures StepOf(n, CellRow(n, p, k), CellColumn(n, p, k)) == k
  {
    PairColumnRange(n, p);
  }

  lemma PairColumnRange(n: nat, p: nat)
    requires Side(n) && p < PairCount(n)
    ensures PairColumn(n, p) > 6 ==> PairColumn(n, p) % 2 == 0 && 8 <= PairColumn(n, p) <= n - 1
    ensures PairColumn(n, p) <= 6 ==> PairColumn(n, p) % 2 == 1 && 1 <= PairColumn(n, p) <= 5
  {
  }

  // ---- counting data modules along the way

  predicate IsData(typeNumber: nat, p: nat, k: nat)
  {
    var n := ModuleCount(typeNumber);
    !IsFunction(typeNumber, CellRow(n, p, k), CellColumn(n, p, k))
  }

  /** Data modules among the first k visits of pair p. */
  function DataInPair(typeNumber: nat, p: nat, k: nat): (m: nat)
  {
    if k == 0 then 0 else DataInPair(typeNumber, p, k - 1) + (if IsData(typeNumber, p, k - 1) then 1 else 0)
  }

  /** Data modules in the first p pairs. */
  function DataBefore(typeNumber: nat, p: nat): (m: nat)
  {
    if p == 0 then 0
    else DataBefore(typeNumber, p - 1) + DataInPair(typeNumber, p - 1, 2 * ModuleCount(typeNumber))
  }

  /** How many data modules are visited before visit k of pair p. */
  function Rank(typeNumber: nat, p: nat, k: nat): (m: nat)
  {
    DataBefore(typeNumber, p) + DataInPair(typeNumber, p, k)
  }

  function DataTotal(typeNumber: nat): (m: nat)
  {
    DataBefore(typeNumber, PairCount(ModuleCount(typeNumber)))
  }

  // ---- the same count as a set of modules

  function PairCells(typeNumber: nat, p: nat, k: nat): (s: CellSet)
  {
    var n := ModuleCount(typeNumber);
    if k == 0 then {}
    else if IsData(typeNumber, p, k - 1)
    then PairCells(typeNumber, p, k - 1) + {(CellRow(n, p, k - 1), CellColumn(n, p, k - 1))}
    else PairCells(typeNumber, p, k - 1)
  }

  function AllCells(typeNumber: nat, p: nat): (s: CellSet)
  {
    if p == 0 then {}
    else AllCells(typeNumber, p - 1) + PairCells(typeNumber, p - 1, 2 * ModuleCount(typeNumber))
  }

  lemma {:induction false} InPairCells(typeNumber: nat, p: nat, k: nat, m: nat)
    requires m < k && IsData(typeNumber, p, m)
    ensures var n := ModuleCount(typeNumber);
            (CellRow(n, p, m), CellColumn(n, p, m)) in PairCells(typeNumber, p, k)
  {
    hide IsData;
    if m < k - 1 {
      InPairCells(typeNumber, p, k - 1, m);
    }
  }

  lemma {:induction false} InAllCells(typeNumber: nat, p: nat, q: nat, x: (int, int))
    requires q < p && x in PairCells(typeNumber, q, 2 * ModuleCount(typeNumber))
    ensures x in AllCells(typeNumber, p)
  {
    hide PairCells;
    if q < p - 1 {
      InAllCells(typeNumber, p - 1, q, x);
    }
  }

  lemma {:induction false} PairCellsSize(typeNumber: nat, p: nat, k: nat)
    ensures |PairCells(typeNumber, p, k)| <= DataInPair(typeNumber, p, k)
  {
    hide IsData;
    if k > 0 {
      PairCellsSize(typeNumber, p, k - 1);
    }
  }

  lemma {:induction false} AllCellsSize(typeNumber: nat, p: nat)
    ensures |AllCells(typeNumber, p)| <= DataBefore(typeNumber, p)
  {
    hide PairCells, DataInPair;
    if p > 0 {
      AllCellsSize(typeNumber, p - 1);
      PairCellsSize(typeNumber, p - 1, 2 * ModuleCount(typeNumber));
      UnionSize(AllCells(typeNumber, p - 1), PairCells(typeNumber, p - 1, 2 * ModuleCount(typeNumber)));
    }
  }

  /** Every data module is visited. */
  lemma DataCellVisited(typeNumber: nat, r: int, c: int)
    requires typeNumber >= 1 && InSymbol(typeNumber, r, c) && !IsFunction(typeNumber, r, c)
    ensures c != 6
    ensures (r, c) in AllCells(typeNumber, PairCount(ModuleCount(typeNumber)))
  {
    hide IsFunction, AllCells, PairCells, CellRow, CellColumn, PairOf, StepOf;
    var n := ModuleCount(typeNumber);
    if c == 6 {
      ColumnSixIsFull(typeNumber, r);
    } else {
      SideOf(typeNumber);
      VisitOfCell(n, r, c);
      InPairCells(typeNumber, PairOf(n, c), 2 * n, StepOf(n, r, c));
      InAllCells(typeNumber, PairCount(n), PairOf(n, c), (r, c));
    }
  }

  /** There is room for every codeword bit. */
  lemma EnoughModules(typeNumber: nat)
    requires 1 <= typeNumber <= 40
    ensures DataTotal(typeNumber) >= DataModules(typeNumber)
  {
    hide AllCells, Cover, Rect, DataBefore, DataModules, IsFunction;
    var n := ModuleCount(typeNumber);
    var square, data, cover := Rect(0, 0, n, n), AllCells(typeNumber, PairCount(n)), Cover(typeNumber);
    forall x | x in square
      ensures x in data + cover
    {
      RectHas(0, 0, n, n, x.0, x.1);
      if IsFunction(typeNumber, x.0, x.1) {
        CoverHas(typeNumber, x.0, x.1);
      } else {
        DataCellVisited(typeNumber, x.0, x.1);
      }
    }
    RectSize(0, 0, n, n);
    SubsetSize(square, data + cover);
    UnionSize(data, cover);
    AllCellsSize(typeNumber, PairCount(n));
    CoverSize(typeNumber);
  }

  lemma SubsetSize(a: CellSet, b: CellSet)
    requires a <= b
    ensures |a| <= |b|
  {
    assert b == a + (b - a);
  }
}
