/** The setup steps that draw the function patterns into the module matrix, in place. */
module Painting {
  import opened Blocks
  import opened Layout
  import Gf2
  import opened Bch
  import opened DataPlacement
  import opened Results

  ghost predicate Square(modules: array2<Cell>, n: nat)
  {
    modules.Length0 == n && modules.Length1 == n
  }

  // ---- finders

  /** The condition with which the encoder tells dark finder modules. */
  predicate ProbeDark(r: int, c: int)
  {
    || (0 <= r <= 6 && (c == 0 || c == 6))
    || (0 <= c <= 6 && (r == 0 || r == 6))
    || (2 <= r <= 4 && 2 <= c <= 4)
  }

  lemma ProbeIsFinder(r: int, c: int)
    requires -1 <= r <= 7 && -1 <= c <= 7
    ensures ProbeDark(r, c) == FinderDark(Ring(3, 3, r, c))
  {
  }

  method ProbeRow(modules: array2<Cell>, row: nat, col: nat, r: int)
    requires Square(modules, modules.Length0) && -1 <= r <= 7 && 0 <= row + r < modules.Length0
    modifies modules
    ensures forall i, j :: 0 <= i < modules.Length0 && 0 <= j < modules.Length0 ==>
      modules[i, j] == if i == row + r && col - 1 <= j <= col + 7
                       then Some(FinderDark(Ring(row + 3, col + 3, i, j))) else old(modules[i, j])
  {
    hide FinderDark, Ring, ProbeDark;
    for c := -1 to 8
      invariant forall i, j :: 0 <= i < modules.Length0 && 0 <= j < modules.Length0 ==>
        modules[i, j] == if i == row + r && col - 1 <= j < col + c
                         then Some(FinderDark(Ring(row + 3, col + 3, i, j))) else old(modules[i, j])
    {
      if 0 <= col + c < modules.Length0 {
        ProbeIsFinder(r, c);
        RingShift(row, col, r, c);
        modules[row + r, col + c] := Some(ProbeDark(r, c));
      }
    }
  }

  lemma RingShift(row: int, col: int, r: int, c: int)
    ensures Ring(row + 3, col + 3, row + r, col + c) == Ring(3, 3, r, c)
  {
  }

  method SetupPositionProbePattern(modules: array2<Cell>, row: nat, col: nat)
    requires Square(modules, modules.Length0)
    modifies modules
    ensures forall i, j :: 0 <= i < modules.Length0 && 0 <= j < modules.Length0 ==>
      modules[i, j] == if row - 1 <= i <= row + 7 && col - 1 <= j <= col + 7
                       then Some(FinderDark(Ring(row + 3, col + 3, i, j))) else old(modules[i, j])
  {
    hide FinderDark, Ring;
    for r := -1 to 8
      invariant forall i, j :: 0 <= i < modules.Length0 && 0 <= j < modules.Length0 ==>
        modules[i, j] == if row - 1 <= i < row + r && col - 1 <= j <= col + 7
                         then Some(FinderDark(Ring(row + 3, col + 3, i, j))) else old(modules[i, j])
    {
      if 0 <= row + r < modules.Length0 {
        ProbeRow(modules, row, col, r);
      }
    }
  }

  // ---- alignment patterns

  method AlignmentBox(modules: array2<Cell>, row: nat, col: nat)
    requires Square(modules, modules.Length0)
    requires 2 <= row < modules.Length0 - 2 && 2 <= col < modules.Length0 - 2
    modifies modules
    ensures forall i, j :: 0 <= i < modules.Length0 && 0 <= j < modules.Length0 ==>
      modules[i, j] == if Near(row, i) && Near(col, j)
                       then Some(AlignmentDark(Ring(row, col, i, j))) else old(modules[i, j])
  {
    hide Ring;
    for r := -2 to 3
      invariant forall i, j :: 0 <= i < modules.Length0 && 0 <= j < modules.Length0 ==>
        modules[i, j] == if row - 2 <= i < row + r && Near(col, j)
                         then Some(AlignmentDark(Ring(row, col, i, j))) else old(modules[i, j])
    {
      for c := -2 to 3
        invariant forall i, j :: 0 <= i < modules.Length0 && 0 <= j < modules.Length0 ==>
          modules[i, j] == if (row - 2 <= i < row + r && Near(col, j)) || (i == row + r && col - 2 <= j < col + c)
                           then Some(AlignmentDark(Ring(row, col, i, j))) else old(modules[i, j])
      {
        AlignmentRing5(row, col, r, c);
        modules[row + r, col + c] := Some(r == -2 || r == 2 || c == -2 || c == 2 || (r == 0 && c == 0));
      }
    }
  }

  lemma AlignmentRing5(row: int, col: int, r: int, c: int)
    requires -2 <= r <= 2 && -2 <= c <= 2
    ensures (r == -2 || r == 2 || c == -2 || c == 2 || (r == 0 && c == 0))
         == AlignmentDark(Ring(row, col, row + r, col + c))
  {
  }

  /** The centres whose module is taken when their turn comes are exactly the three in finders. */
  lemma CentreInFinder(pos: seq<nat>, typeNumber: nat, i: nat, j: nat)
    requires Regular(pos, typeNumber) && typeNumber >= 1 && i < |pos| && j < |pos|
    ensures InFinder(ModuleCount(typeNumber), pos[i], pos[j]) <==> !IsCentre(pos, i, j)
    ensures 6 <= pos[i] <= ModuleCount(typeNumber) - 7
  {
    CoordinateSide(pos, typeNumber, i, pos[i]);
    CoordinateSide(pos, typeNumber, j, pos[j]);
    if i > 0 {
      CentresApart(pos, typeNumber, 0, i);
    }
    if i < |pos| - 1 {
      CentresApart(pos, typeNumber, i, |pos| - 1);
    }
  }

  /** Belongs to the pattern of a centre before (i, j) in drawing order. */
  ghost predicate DrawnBefore(pos: seq<nat>, i: nat, j: nat, r: int, c: int)
  {
    InAlignment(pos, r, c)
    && (NearIndex(pos, r).value < i || (NearIndex(pos, r).value == i && NearIndex(pos, c).value < j))
  }

  /** What the matrix holds after the alignment patterns before (i, j). */
  ghost function AlignmentCell(pos: seq<nat>, i: nat, j: nat, r: int, c: int, before: Cell): (x: Cell)
  {
    if DrawnBefore(pos, i, j, r, c) then Some(AlignmentDark(AlignmentRing(pos, r, c))) else before
  }

  lemma DrawNext(pos: seq<nat>, typeNumber: nat, i: nat, j: nat, r: int, c: int, before: Cell)
    requires Regular(pos, typeNumber) && i < |pos| && j < |pos|
    ensures AlignmentCell(pos, i, j + 1, r, c, before)
         == if IsCentre(pos, i, j) && Near(pos[i], r) && Near(pos[j], c)
            then Some(AlignmentDark(Ring(pos[i], pos[j], r, c)))
            else AlignmentCell(pos, i, j, r, c, before)
    ensures AlignmentCell(pos, i, j, pos[i], pos[j], before) == before
  {
    hide Ring, NearIndex;
    NearIndexIs(pos, typeNumber, pos[i], i);
    NearIndexIs(pos, typeNumber, pos[j], j);
    if Near(pos[i], r) {
      NearIndexIs(pos, typeNumber, r, i);
    }
    if Near(pos[j], c) {
      NearIndexIs(pos, typeNumber, c, j);
    }
  }

  method AlignmentAt(modules: array2<Cell>, typeNumber: nat, pos: seq<nat>, i: nat, j: nat,
      ghost before: seq<seq<Cell>>)
    requires 1 <= typeNumber <= 40 && Square(modules, ModuleCount(typeNumber))
    requires Regular(pos, typeNumber) && i < |pos| && j < |pos|
    requires |before| == modules.Length0 && forall r :: 0 <= r < |before| ==> |before[r]| == modules.Length0
    requires forall r, c :: 0 <= r < modules.Length0 && 0 <= c < modules.Length0 ==>
      (before[r][c].Some? <==> InFinder(modules.Length0, r, c))
    requires forall r, c :: 0 <= r < modules.Length0 && 0 <= c < modules.Length0 ==>
      modules[r, c] == AlignmentCell(pos, i, j, r, c, before[r][c])
    modifies modules
    ensures forall r, c :: 0 <= r < modules.Length0 && 0 <= c < modules.Length0 ==>
      modules[r, c] == AlignmentCell(pos, i, j + 1, r, c, before[r][c])
  {
    hide Ring, AlignmentCell, NearIndex, InFinder, Regular, IsCentre;
    CentreInFinder(pos, typeNumber, i, j);
    CentreInFinder(pos, typeNumber, j, i);
    var row, col := pos[i], pos[j];
    DrawNext(pos, typeNumber, i, j, row, col, before[row][col]);
    assert modules[row, col] == before[row][col];
    if modules[row, col].None? {
      AlignmentBox(modules, row, col);
    }
    forall r, c | 0 <= r < modules.Length0 && 0 <= c < modules.Length0
      ensures modules[r, c] == AlignmentCell(pos, i, j + 1, r, c, before[r][c])
    {
      DrawNext(pos, typeNumber, i, j, r, c, before[r][c]);
      assert old(modules[r, c]) == AlignmentCell(pos, i, j, r, c, before[r][c]);
    }
  }

  method SetupPositionAdjustPattern(modules: array2<Cell>, typeNumber: nat)
    requires 1 <= typeNumber <= 40 && Square(modules, ModuleCount(typeNumber))
    requires forall r, c :: 0 <= r < modules.Length0 && 0 <= c < modules.Length0 ==>
      (modules[r, c].Some? <==> InFinder(modules.Length0, r, c))
    modifies modules
    ensures var pos := PatternPosition(typeNumber);
      forall r, c :: 0 <= r < modules.Length0 && 0 <= c < modules.Length0 ==>
        modules[r, c] == if InAlignment(pos, r, c) then Some(AlignmentDark(AlignmentRing(pos, r, c)))
                         else old(modules[r, c])
  {
    var pos := PatternPosition(typeNumber);
    TableRegular(typeNumber);
    hide PatternPosition, NearIndex, Regular, InFinder, AlignmentCell, Ring;
    ghost var n := modules.Length0;
    ghost var before := seq(n, r requires 0 <= r < n reads modules =>
      seq(n, c requires 0 <= c < n reads modules => modules[r, c]));
    forall r, c | 0 <= r < n && 0 <= c < n
      ensures modules[r, c] == AlignmentCell(pos, 0, 0, r, c, before[r][c])
    {
      NothingDrawn(pos, r, c, before[r][c]);
    }
    for i := 0 to |pos|
      invariant forall r, c :: 0 <= r < n && 0 <= c < n ==>
        modules[r, c] == AlignmentCell(pos, i, 0, r, c, before[r][c])
    {
      for j := 0 to |pos|
        invariant forall r, c :: 0 <= r < n && 0 <= c < n ==>
          modules[r, c] == AlignmentCell(pos, i, j, r, c, before[r][c])
      {
        AlignmentAt(modules, typeNumber, pos, i, j, before);
      }
      forall r, c | 0 <= r < n && 0 <= c < n
        ensures modules[r, c] == AlignmentCell(pos, i + 1, 0, r, c, before[r][c])
      {
        RowDrawn(pos, i, r, c, before[r][c]);
      }
    }
    forall r, c | 0 <= r < n && 0 <= c < n
      ensures modules[r, c] == if InAlignment(pos, r, c) then Some(AlignmentDark(AlignmentRing(pos, r, c)))
                               else before[r][c]
    {
      AllDrawn(pos, r, c, before[r][c]);
    }
  }

  lemma NothingDrawn(pos: seq<nat>, r: int, c: int, before: Cell)
    ensures AlignmentCell(pos, 0, 0, r, c, before) == before
  {
  }

  lemma RowDrawn(pos: seq<nat>, i: nat, r: int, c: int, before: Cell)
    ensures AlignmentCell(pos, i, |pos|, r, c, before) == AlignmentCell(pos, i + 1, 0, r, c, before)
  {
  }

  lemma AllDrawn(pos: seq<nat>, r: int, c: int, before: Cell)
    ensures AlignmentCell(pos, |pos|, 0, r, c, before)
         == if InAlignment(pos, r, c) then Some(AlignmentDark(AlignmentRing(pos, r, c))) else before
  {
  }

  // ---- timing patterns

  method SetupTimingPattern(modules: array2<Cell>)
    requires Square(modules, modules.Length0) && modules.Length0 >= 21
    modifies modules
    ensures forall r, c :: 0 <= r < modules.Length0 && 0 <= c < modules.Length0 ==>
      modules[r, c] == if InTiming(modules.Length0, r, c) && old(modules[r, c]).None? then Some(TimingDark(r, c))
                       else old(modules[r, c])
  {
    for i := 8 to modules.Length0 - 8
      invariant forall r, c :: 0 <= r < modules.Length0 && 0 <= c < modules.Length0 ==>
        modules[r, c] == if c == 6 && 8 <= r < i && old(modules[r, c]).None? then Some(TimingDark(r, c))
                         else old(modules[r, c])
    {
      if modules[i, 6].None? {
        modules[i, 6] := Some(i % 2 == 0);
      }
    }
    for i := 8 to modules.Length0 - 8
      invariant forall r, c :: 0 <= r < modules.Length0 && 0 <= c < modules.Length0 ==>
        modules[r, c] == if ((c == 6 && 8 <= r < modules.Length0 - 8) || (r == 6 && 8 <= c < i))
                            && old(modules[r, c]).None?
                         then Some(TimingDark(r, c))
                         else old(modules[r, c])
    {
      if modules[6, i].None? {
        modules[6, i] := Some(i % 2 == 0);
      }
    }
  }

  // ---- format and version information

  /** What a format module shows; in a test symbol all of them are light. */
  function FormatDark(bits: nat, test: bool, i: nat): (dark: bool)
  {
    !test && (i == 15 || BitOf(bits, i))
  }

  /** The two modules that show bit i. */
  lemma FormatCopies(n: nat, r: int, c: int, i: nat)
    requires n >= 21 && 0 <= r < n && 0 <= c < n && i < 15
    ensures InFormat(n, r, c) && FormatIndex(n, r, c) == i <==>
      || (c == 8 && r == if i < 6 then i else if i < 8 then i + 1 else n - 15 + i)
      || (r == 8 && c == if i < 8 then n - i - 1 else if i < 9 then 15 - i - 1 + 1 else 15 - i - 1)
  {
  }

  method SetupTypeInfo(modules: array2<Cell>, level: nat, test: bool, maskPattern: nat) returns (ghost word: nat)
    requires Square(modules, modules.Length0) && modules.Length0 >= 21 && maskPattern < 8
    modifies modules
    ensures IsFormatWord(word, level, maskPattern)
    ensures forall r, c :: 0 <= r < modules.Length0 && 0 <= c < modules.Length0 ==>
      modules[r, c] == if InFormat(modules.Length0, r, c)
                       then Some(FormatDark(word, test, FormatIndex(modules.Length0, r, c)))
                       else old(modules[r, c])
  {
    hide BitOf;
    OrLevel(level, maskPattern);
    var data := Gf2.Or(Gf2.Shl(level, 3), maskPattern);
    var bits := BchTypeInfo(data);
    word := bits;
    var n := modules.Length0;
    for i := 0 to 15
      invariant forall r, c :: 0 <= r < n && 0 <= c < n ==>
        modules[r, c] == if InFormat(n, r, c) && FormatIndex(n, r, c) < i
                         then Some(FormatDark(word, test, FormatIndex(n, r, c))) else old(modules[r, c])
    {
      var mod := !test && BitOf(bits, i);
      forall r, c | 0 <= r < n && 0 <= c < n
        ensures InFormat(n, r, c) && FormatIndex(n, r, c) == i <==>
          || (c == 8 && r == if i < 6 then i else if i < 8 then i + 1 else n - 15 + i)
          || (r == 8 && c == if i < 8 then n - i - 1 else if i < 9 then 15 - i - 1 + 1 else 15 - i - 1)
      {
        FormatCopies(n, r, c, i);
      }
      if i < 6 {
        modules[i, 8] := Some(mod);
      } else if i < 8 {
        modules[i + 1, 8] := Some(mod);
      } else {
        modules[n - 15 + i, 8] := Some(mod);
      }
      if i < 8 {
        modules[8, n - i - 1] := Some(mod);
      } else if i < 9 {
        modules[8, 15 - i - 1 + 1] := Some(mod);
      } else {
        modules[8, 15 - i - 1] := Some(mod);
      }
    }
    modules[n - 8, 8] := Some(!test);
  }

  /** The masked format code word for a level and mask. */
  ghost predicate IsFormatWord(word: nat, level: nat, maskPattern: nat)
  {
    IsCodeword(Gf2.Xor(word, G15_MASK), 8 * level + maskPattern, G15, 10)
  }

  lemma OrLevel(level: nat, maskPattern: nat)
    requires maskPattern < 8
    ensures Gf2.Or(Gf2.Shl(level, 3), maskPattern) == 8 * level + maskPattern
  {
    assert Gf2.Pow2(3) == 8;
    Gf2.OrMerges(level, maskPattern, 3);
    assert Gf2.Shl(level, 1) == 2 * level;
    assert Gf2.Shl(level, 2) == 4 * level;
    assert Gf2.Shl(level, 3) == 8 * level;
  }

  lemma VersionCopies(n: nat, typeNumber: nat, r: int, c: int, i: nat)
    requires typeNumber >= 7 && n >= 21 && i < 18
    ensures InVersion(n, typeNumber, r, c) && VersionIndex(n, typeNumber, r, c) == i <==>
      (r == i / 3 && c == i % 3 + n - 8 - 3) || (r == i % 3 + n - 8 - 3 && c == i / 3)
  {
  }

  method SetupTypeNumber(modules: array2<Cell>, typeNumber: nat, test: bool) returns (ghost word: nat)
    requires typeNumber >= 7 && Square(modules, ModuleCount(typeNumber))
    modifies modules
    ensures IsCodeword(word, typeNumber, G18, 12)
    ensures forall r, c :: 0 <= r < modules.Length0 && 0 <= c < modules.Length0 ==>
      modules[r, c] == if InVersion(modules.Length0, typeNumber, r, c)
                       then Some(!test && BitOf(word, VersionIndex(modules.Length0, typeNumber, r, c)))
                       else old(modules[r, c])
  {
    hide BitOf;
    var bits := BchTypeNumber(typeNumber);
    word := bits;
    var n := modules.Length0;
    for i := 0 to 18
      invariant forall r, c :: 0 <= r < n && 0 <= c < n ==>
        modules[r, c] == if InVersion(n, typeNumber, r, c) && VersionIndex(n, typeNumber, r, c) < i
                         then Some(!test && BitOf(word, VersionIndex(n, typeNumber, r, c))) else old(modules[r, c])
    {
      var mod := !test && BitOf(bits, i);
      forall r, c | 0 <= r < n && 0 <= c < n
        ensures InVersion(n, typeNumber, r, c) && VersionIndex(n, typeNumber, r, c) == i <==>
          (r == i / 3 && c == i % 3 + n - 8 - 3) || (r == i % 3 + n - 8 - 3 && c == i / 3)
      {
        VersionCopies(n, typeNumber, r, c, i);
      }
      modules[i / 3, i % 3 + n - 8 - 3] := Some(mod);
      modules[i % 3 + n - 8 - 3, i / 3] := Some(mod);
    }
  }
}
