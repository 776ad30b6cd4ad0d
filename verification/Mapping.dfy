/** `mapData`: the zig-zag fill of the data modules, in place. */
module Mapping {
  import opened Blocks
  import opened Layout
  import opened ZigZag
  import opened MaskPictures
  import opened Masks
  import opened ReedSolomon
  import opened DataPlacement
  import opened Painting
  import opened Results

  /** What a data module shows: the codeword bit of its rank, inverted where the picture of the mask says so. */
  ghost function Placed(typeNumber: nat, data: seq<Slot>, maskPattern: nat, r: nat, c: nat): (dark: bool)
    requires typeNumber >= 1 && InSymbol(typeNumber, r, c) && c != 6 && maskPattern < 8
  {
    var n := ModuleCount(typeNumber);
    SideOf(typeNumber);
    VisitOfCell(n, r, c);
    DataBit(data, Rank(typeNumber, PairOf(n, c), StepOf(n, r, c))) != Inverts(maskPattern, r, c)
  }

  /** Visited before visit k of pair p. */
  ghost predicate Visited(n: nat, p: nat, k: nat, r: int, c: int)
  {
    c != 6 && (PairOf(n, c) < p || (PairOf(n, c) == p && StepOf(n, r, c) < k))
  }

  lemma VisitNext(n: nat, p: nat, k: nat, r: int, c: int)
    requires Side(n) && p < PairCount(n) && k < 2 * n && 0 <= r < n && 0 <= c < n
    ensures Visited(n, p, k + 1, r, c) <==>
      Visited(n, p, k, r, c) || (r == CellRow(n, p, k) && c == CellColumn(n, p, k))
    ensures !Visited(n, p, k, CellRow(n, p, k), CellColumn(n, p, k))
  {
    hide CellRow, CellColumn, PairOf, StepOf;
    CellOfVisit(n, p, k);
    if c != 6 {
      VisitOfCell(n, r, c);
    }
  }

  lemma PairDone(n: nat, p: nat, r: int, c: int)
    requires Side(n) && 0 <= r < n && 0 <= c < n
    ensures Visited(n, p, 2 * n, r, c) <==> Visited(n, p + 1, 0, r, c)
    ensures Visited(n, PairCount(n), 0, r, c) <==> c != 6
    ensures !Visited(n, 0, 0, r, c)
  {
    hide PairOf, StepOf;
    if c != 6 {
      VisitOfCell(n, r, c);
    }
  }

  /** What the matrix holds before visit k of pair p. */
  ghost function MappedCell(typeNumber: nat, data: seq<Slot>, maskPattern: nat, p: nat, k: nat,
                            r: nat, c: nat, before: Cell): (x: Cell)
    requires typeNumber >= 1 && InSymbol(typeNumber, r, c) && maskPattern < 8
  {
    if before.None? && Visited(ModuleCount(typeNumber), p, k, r, c)
    then Some(Placed(typeNumber, data, maskPattern, r, c))
    else before
  }

  /** A matrix whose undecided modules are exactly the data modules. */
  ghost predicate Undecided(modules: array2<Cell>, typeNumber: nat)
    reads modules
  {
    && Square(modules, ModuleCount(typeNumber))
    && forall r, c :: 0 <= r < modules.Length0 && 0 <= c < modules.Length0 ==>
         (modules[r, c].None? <==> !IsFunction(typeNumber, r, c))
  }

  /** A square table of cells, the matrix as it was. */
  ghost predicate Table(before: seq<seq<Cell>>, typeNumber: nat)
  {
    && |before| == ModuleCount(typeNumber)
    && (forall r :: 0 <= r < |before| ==> |before[r]| == |before|)
    && (forall r, c :: 0 <= r < |before| && 0 <= c < |before| ==>
          (before[r][c].None? <==> !IsFunction(typeNumber, r, c)))
  }

  ghost predicate Mapped(modules: array2<Cell>, typeNumber: nat, data: seq<Slot>, maskPattern: nat,
                         p: nat, k: nat, before: seq<seq<Cell>>)
    requires typeNumber >= 1 && maskPattern < 8 && Table(before, typeNumber)
    reads modules
  {
    && Square(modules, |before|)
    && forall r, c :: 0 <= r < |before| && 0 <= c < |before| ==>
         modules[r, c] == MappedCell(typeNumber, data, maskPattern, p, k, r, c, before[r][c])
  }

  /** One visit: the module, if undecided, takes the next bit, flipped by the mask. */
  method Visit(modules: array2<Cell>, typeNumber: nat, data: seq<Slot>, maskPattern: nat, ghost p: nat, ghost k: nat,
               ghost before: seq<seq<Cell>>, row: nat, col: nat, bitIndex0: int, byteIndex0: nat)
    returns (bitIndex: int, byteIndex: nat)
    requires typeNumber >= 1 && maskPattern < 8 && Table(before, typeNumber)
    requires p < PairCount(|before|) && k < 2 * |before|
    requires row == CellRow(|before|, p, k) && col == CellColumn(|before|, p, k)
    requires Mapped(modules, typeNumber, data, maskPattern, p, k, before)
    requires 0 <= bitIndex0 <= 7 && 8 * byteIndex0 + 7 - bitIndex0 == Rank(typeNumber, p, k)
    modifies modules
    ensures Mapped(modules, typeNumber, data, maskPattern, p, k + 1, before)
    ensures 0 <= bitIndex <= 7 && 8 * byteIndex + 7 - bitIndex == Rank(typeNumber, p, k + 1)
  {
    hide CellRow, CellColumn, PairOf, StepOf, IsFunction, Inverts, GetMask, Visited, Placed, PairCount;
    ghost var n := |before|;
    bitIndex, byteIndex := bitIndex0, byteIndex0;
    SideOf(typeNumber);
    CellOfVisit(n, p, k);
    VisitNext(n, p, k, row, col);
    if modules[row, col].None? {
      var dark := false;
      if byteIndex < |data| {
        dark := BitOf(Val(data[byteIndex]), bitIndex);
      }
      PlacedHere(typeNumber, data, maskPattern, p, k, byteIndex, bitIndex);
      MaskIsPicture(maskPattern, row, col);
      var mask := GetMask(maskPattern, row, col);
      if mask {
        dark := !dark;
      }
      modules[row, col] := Some(dark);
      bitIndex := bitIndex - 1;
      if bitIndex == -1 {
        byteIndex := byteIndex + 1;
        bitIndex := 7;
      }
    }
    forall r, c | 0 <= r < n && 0 <= c < n
      ensures modules[r, c] == MappedCell(typeNumber, data, maskPattern, p, k + 1, r, c, before[r][c])
    {
      VisitNext(n, p, k, r, c);
    }
  }

  lemma PlacedHere(typeNumber: nat, data: seq<Slot>, maskPattern: nat, p: nat, k: nat, byteIndex: nat, bitIndex: nat)
    requires typeNumber >= 1 && maskPattern < 8 && bitIndex <= 7
    requires p < PairCount(ModuleCount(typeNumber)) && k < 2 * ModuleCount(typeNumber)
    requires 8 * byteIndex + 7 - bitIndex == Rank(typeNumber, p, k)
    ensures var n := ModuleCount(typeNumber);
            var r, c := CellRow(n, p, k), CellColumn(n, p, k);
            && 0 <= r < n && 0 <= c < n && c != 6
            && Placed(typeNumber, data, maskPattern, r, c)
               == ((byteIndex < |data| && BitOf(Val(data[byteIndex]), bitIndex)) != Inverts(maskPattern, r, c))
  {
    hide CellRow, CellColumn, PairOf, StepOf, Inverts, BitOf;
    SideOf(typeNumber);
    CellOfVisit(ModuleCount(typeNumber), p, k);
    var i := Rank(typeNumber, p, k);
    assert i / 8 == byteIndex && i % 8 == 7 - bitIndex;
  }

  /** One pair of columns, from the row at which the previous pair ended. */
  method MapPair(modules: array2<Cell>, typeNumber: nat, data: seq<Slot>, maskPattern: nat, ghost p: nat,
                 ghost before: seq<seq<Cell>>, col: nat, row0: nat, inc0: int, bitIndex0: int, byteIndex0: nat)
    returns (row: int, inc: int, bitIndex: int, byteIndex: nat)
    requires typeNumber >= 1 && maskPattern < 8 && Table(before, typeNumber)
    requires p < PairCount(|before|) && col == PairColumn(|before|, p)
    requires inc0 == (if p % 2 == 0 then -1 else 1) && row0 == (if p % 2 == 0 then |before| - 1 else 0)
    requires Mapped(modules, typeNumber, data, maskPattern, p, 0, before)
    requires 0 <= bitIndex0 <= 7 && 8 * byteIndex0 + 7 - bitIndex0 == Rank(typeNumber, p, 0)
    modifies modules
    ensures Mapped(modules, typeNumber, data, maskPattern, p, 2 * |before|, before)
    ensures inc == -inc0 && row == (if p % 2 == 0 then 0 else |before| - 1)
    ensures 0 <= bitIndex <= 7 && 8 * byteIndex + 7 - bitIndex == Rank(typeNumber, p, 2 * |before|)
  {
    hide Mapped, Rank, IsFunction, Table;
    SideOf(typeNumber);
    MatrixSide(modules, typeNumber, data, maskPattern, p, 0, before);
    PairColumnRange(|before|, p);
    ghost var s := 0;
    row, inc, bitIndex, byteIndex := row0, inc0, bitIndex0, byteIndex0;
    while true
      invariant 0 <= s < |before|
      invariant row == if p % 2 == 0 then |before| - 1 - s else s
      invariant inc == inc0
      invariant Mapped(modules, typeNumber, data, maskPattern, p, 2 * s, before)
      invariant 0 <= bitIndex <= 7 && 8 * byteIndex + 7 - bitIndex == Rank(typeNumber, p, 2 * s)
      decreases |before| - s
    {
      for c := 0 to 2
        invariant Mapped(modules, typeNumber, data, maskPattern, p, 2 * s + c, before)
        invariant 0 <= bitIndex <= 7 && 8 * byteIndex + 7 - bitIndex == Rank(typeNumber, p, 2 * s + c)
      {
        StepCell(|before|, p, s, c);
        bitIndex, byteIndex := Visit(modules, typeNumber, data, maskPattern, p, 2 * s + c, before,
                                     row, col - c, bitIndex, byteIndex);
      }
      row := row + inc;
      s := s + 1;
      if row < 0 || modules.Length0 <= row {
        row := row - inc;
        inc := -inc;
        break;
      }
    }
  }

  lemma StepCell(n: nat, p: nat, s: nat, c: nat)
    requires c < 2
    ensures CellRow(n, p, 2 * s + c) == if p % 2 == 0 then n - 1 - s else s
    ensures CellColumn(n, p, 2 * s + c) == PairColumn(n, p) - c
  {
  }

  lemma MatrixSide(modules: array2<Cell>, typeNumber: nat, data: seq<Slot>, maskPattern: nat, p: nat, k: nat,
      before: seq<seq<Cell>>)
    requires typeNumber >= 1 && maskPattern < 8 && Table(before, typeNumber)
    requires Mapped(modules, typeNumber, data, maskPattern, p, k, before)
    ensures modules.Length0 == |before| == ModuleCount(typeNumber)
  {
  }

  /** Every data module gets its bit, no other module changes, and none is left undecided. */
  method MapData(modules: array2<Cell>, typeNumber: nat, data: seq<Slot>, maskPattern: nat)
    requires typeNumber >= 1 && maskPattern < 8 && Undecided(modules, typeNumber)
    modifies modules
    ensures forall r, c :: 0 <= r < modules.Length0 && 0 <= c < modules.Length0 && IsFunction(typeNumber, r, c) ==>
      modules[r, c] == old(modules[r, c])
    ensures forall r, c :: 0 <= r < modules.Length0 && 0 <= c < modules.Length0 && !IsFunction(typeNumber, r, c) ==>
      c != 6 && modules[r, c] == Some(Placed(typeNumber, data, maskPattern, r, c))
  {
    hide Mapped, IsFunction, Rank, PairOf, StepOf, Visited, Placed;
    var moduleCount := modules.Length0;
    ghost var before := seq(moduleCount, r requires 0 <= r < moduleCount reads modules =>
      seq(moduleCount, c requires 0 <= c < moduleCount reads modules => modules[r, c]));
    SideOf(typeNumber);
    StartMapped(modules, typeNumber, data, maskPattern, before);
    RankStart(typeNumber);
    var inc, row, bitIndex, byteIndex := -1, moduleCount - 1, 7, 0;
    var col := moduleCount - 1;
    ghost var p := 0;
    while col > 0
      invariant p <= PairCount(moduleCount)
      invariant col == if moduleCount - 1 - 2 * p >= 6 then moduleCount - 1 - 2 * p else moduleCount - 2 - 2 * p
      invariant inc == (if p % 2 == 0 then -1 else 1) && row == (if p % 2 == 0 then moduleCount - 1 else 0)
      invariant Mapped(modules, typeNumber, data, maskPattern, p, 0, before)
      invariant 0 <= bitIndex <= 7 && 8 * byteIndex + 7 - bitIndex == Rank(typeNumber, p, 0)
      decreases col
    {
      if col == 6 {
        col := col - 1;
      }
      row, inc, bitIndex, byteIndex :=
        MapPair(modules, typeNumber, data, maskPattern, p, before, col, row, inc, bitIndex, byteIndex);
      NextPair(modules, typeNumber, data, maskPattern, p, before);
      p := p + 1;
      col := col - 2;
    }
    assert p == PairCount(moduleCount);
    EndMapped(modules, typeNumber, data, maskPattern, before);
  }

  lemma RankStart(typeNumber: nat)
    ensures Rank(typeNumber, 0, 0) == 0
  {
  }

  lemma StartMapped(modules: array2<Cell>, typeNumber: nat, data: seq<Slot>, maskPattern: nat, before: seq<seq<Cell>>)
    requires typeNumber >= 1 && maskPattern < 8 && Undecided(modules, typeNumber)
    requires |before| == modules.Length0 && forall r :: 0 <= r < |before| ==> |before[r]| == |before|
    requires forall r, c :: 0 <= r < |before| && 0 <= c < |before| ==> before[r][c] == modules[r, c]
    ensures Table(before, typeNumber) && Mapped(modules, typeNumber, data, maskPattern, 0, 0, before)
  {
    hide IsFunction, Placed, Visited;
    SideOf(typeNumber);
    forall r, c | 0 <= r < |before| && 0 <= c < |before|
      ensures modules[r, c] == MappedCell(typeNumber, data, maskPattern, 0, 0, r, c, before[r][c])
    {
      PairDone(|before|, 0, r, c);
    }
  }

  lemma NextPair(modules: array2<Cell>, typeNumber: nat, data: seq<Slot>, maskPattern: nat, p: nat,
      before: seq<seq<Cell>>)
    requires typeNumber >= 1 && maskPattern < 8 && Table(before, typeNumber)
    requires Mapped(modules, typeNumber, data, maskPattern, p, 2 * |before|, before)
    ensures Mapped(modules, typeNumber, data, maskPattern, p + 1, 0, before)
    ensures Rank(typeNumber, p, 2 * |before|) == Rank(typeNumber, p + 1, 0)
  {
    hide IsFunction, Placed, Visited;
    SideOf(typeNumber);
    forall r, c | 0 <= r < |before| && 0 <= c < |before|
      ensures modules[r, c] == MappedCell(typeNumber, data, maskPattern, p + 1, 0, r, c, before[r][c])
    {
      PairDone(|before|, p, r, c);
    }
  }

  lemma EndMapped(modules: array2<Cell>, typeNumber: nat, data: seq<Slot>, maskPattern: nat, before: seq<seq<Cell>>)
    requires typeNumber >= 1 && maskPattern < 8 && Table(before, typeNumber)
    requires Mapped(modules, typeNumber, data, maskPattern, PairCount(|before|), 0, before)
    ensures forall r, c :: 0 <= r < |before| && 0 <= c < |before| && IsFunction(typeNumber, r, c) ==>
      modules[r, c] == before[r][c]
    ensures forall r, c :: 0 <= r < |before| && 0 <= c < |before| && !IsFunction(typeNumber, r, c) ==>
      c != 6 && modules[r, c] == Some(Placed(typeNumber, data, maskPattern, r, c))
  {
    hide IsFunction, Placed, Visited;
    SideOf(typeNumber);
    forall r, c | 0 <= r < |before| && 0 <= c < |before| && !IsFunction(typeNumber, r, c)
      ensures c != 6 && modules[r, c] == Some(Placed(typeNumber, data, maskPattern, r, c))
    {
      DataCellVisited(typeNumber, r, c);
      PairDone(|before|, 0, r, c);
    }
  }
}
