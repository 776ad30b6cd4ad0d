/** Every symbol has at least as many data modules as Table 1 of ISO/IEC 18004 says: a count of the
    modules that function patterns can cover. */
module Capacity {
  import opened Blocks
  import opened Layout

  type CellSet = set<(int, int)>

  function RowSet(r: int, c: int, w: nat): (s: CellSet)
    ensures |s| == w
    ensures forall x :: x in s <==> x.0 == r && c <= x.1 < c + w
  {
    if w == 0 then {} else RowSet(r, c, w - 1) + {(r, c + w - 1)}
  }

  lemma DisjointSize(a: CellSet, b: CellSet)
    requires a !! b
    ensures |a + b| == |a| + |b|
  {
  }

  /** The h by w rectangle with upper left corner (r, c). */
  function Rect(r: int, c: int, h: nat, w: nat): (s: CellSet)
  {
    if h == 0 then {} else Rect(r, c, h - 1, w) + RowSet(r + h - 1, c, w)
  }

  lemma {:induction false} RectHas(r: int, c: int, h: nat, w: nat, x: int, y: int)
    ensures (x, y) in Rect(r, c, h, w) <==> r <= x < r + h && c <= y < c + w
  {
    hide RowSet;
    if h > 0 {
      RectHas(r, c, h - 1, w, x, y);
      assert (x, y) in RowSet(r + h - 1, c, w) <==> x == r + h - 1 && c <= y < c + w;
    }
  }

  lemma RectNext(r: int, c: int, h: nat, w: nat)
    requires h > 0
    ensures Rect(r, c, h, w) == Rect(r, c, h - 1, w) + RowSet(r + h - 1, c, w)
  {
  }

  lemma OneMore(i: nat, k: nat)
    requires i > 0
    ensures i * k == (i - 1) * k + k
  {
  }

  lemma RowBelow(r: int, c: int, h: nat, w: nat)
    ensures Rect(r, c, h, w) !! RowSet(r + h, c, w)
  {
    hide Rect;
    forall x | x in Rect(r, c, h, w)
      ensures x !in RowSet(r + h, c, w)
    {
      RectHas(r, c, h, w, x.0, x.1);
    }
  }

  lemma RowSize(r: int, c: int, w: nat)
    ensures |RowSet(r, c, w)| == w
  {
  }

  lemma NoRect(r: int, c: int, w: nat)
    ensures |Rect(r, c, 0, w)| == 0
  {
  }

  lemma {:induction false} RectSize(r: int, c: int, h: nat, w: nat)
    ensures |Rect(r, c, h, w)| == h * w
  {
    hide Rect;
    if h == 0 {
      NoRect(r, c, w);
    } else {
      RectSize(r, c, h - 1, w);
      RectGrows(r, c, h, w);
      OneMore(h, w);
    }
  }

  lemma RectGrows(r: int, c: int, h: nat, w: nat)
    requires h > 0
    ensures |Rect(r, c, h, w)| == |Rect(r, c, h - 1, w)| + w
  {
    hide RowSet, Rect;
    RectNext(r, c, h, w);
    RowBelow(r, c, h - 1, w);
    var above, last := Rect(r, c, h - 1, w), RowSet(r + (h - 1), c, w);
    RowSize(r + (h - 1), c, w);
    DisjointSize(above, last);
  }

  lemma UnionSize(a: CellSet, b: CellSet)
    ensures |a + b| <= |a| + |b|
  {
    assert a + b == a + (b - a);
    assert b == (b - a) + (a * b);
  }

  // ---- finders, format and version information

  function FinderCover(n: nat): (s: CellSet)
  {
    Rect(0, 0, 8, 8) + Rect(n - 8, 0, 8, 8) + Rect(0, n - 8, 8, 8)
  }

  function FormatColumn(n: nat): (s: CellSet)
  {
    Rect(0, 8, 6, 1) + Rect(7, 8, 2, 1) + Rect(n - 8, 8, 8, 1)
  }

  function FormatRow(n: nat): (s: CellSet)
  {
    Rect(8, 0, 1, 6) + Rect(8, 7, 1, 1) + Rect(8, n - 8, 1, 8)
  }

  function VersionCover(n: nat, typeNumber: nat): (s: CellSet)
  {
    if typeNumber < 7 then {} else Rect(0, n - 11, 6, 3) + Rect(n - 11, 0, 3, 6)
  }

  lemma ThreeUnion(a: CellSet, b: CellSet, c: CellSet)
    ensures |a + b + c| <= |a| + |b| + |c|
  {
    UnionSize(a, b);
    UnionSize(a + b, c);
  }

  lemma FixedSizes(n: nat, typeNumber: nat)
    ensures |FinderCover(n)| <= 192 && |FormatColumn(n)| <= 16 && |FormatRow(n)| <= 15
    ensures |VersionCover(n, typeNumber)| <= (if typeNumber < 7 then 0 else 36)
  {
    hide Rect;
    RectSize(0, 0, 8, 8);
    RectSize(n - 8, 0, 8, 8);
    RectSize(0, n - 8, 8, 8);
    ThreeUnion(Rect(0, 0, 8, 8), Rect(n - 8, 0, 8, 8), Rect(0, n - 8, 8, 8));
    RectSize(0, 8, 6, 1);
    RectSize(7, 8, 2, 1);
    RectSize(n - 8, 8, 8, 1);
    ThreeUnion(Rect(0, 8, 6, 1), Rect(7, 8, 2, 1), Rect(n - 8, 8, 8, 1));
    RectSize(8, 0, 1, 6);
    RectSize(8, 7, 1, 1);
    RectSize(8, n - 8, 1, 8);
    ThreeUnion(Rect(8, 0, 1, 6), Rect(8, 7, 1, 1), Rect(8, n - 8, 1, 8));
    RectSize(0, n - 11, 6, 3);
    RectSize(n - 11, 0, 3, 6);
    UnionSize(Rect(0, n - 11, 6, 3), Rect(n - 11, 0, 3, 6));
  }

  lemma FinderCovered(n: nat, r: int, c: int)
    requires 0 <= r < n && 0 <= c < n && InFinder(n, r, c)
    ensures (r, c) in FinderCover(n)
  {
    hide Rect;
    RectHas(0, 0, 8, 8, r, c);
    RectHas(n - 8, 0, 8, 8, r, c);
    RectHas(0, n - 8, 8, 8, r, c);
  }

  lemma FormatCovered(n: nat, r: int, c: int)
    requires InFormat(n, r, c)
    ensures (r, c) in FormatColumn(n) || (r, c) in FormatRow(n)
  {
    hide Rect;
    if c == 8 {
      RectHas(0, 8, 6, 1, r, c);
      RectHas(7, 8, 2, 1, r, c);
      RectHas(n - 8, 8, 8, 1, r, c);
    } else {
      RectHas(8, 0, 1, 6, r, c);
      RectHas(8, 7, 1, 1, r, c);
      RectHas(8, n - 8, 1, 8, r, c);
    }
  }

  lemma VersionCovered(n: nat, typeNumber: nat, r: int, c: int)
    requires InVersion(n, typeNumber, r, c)
    ensures (r, c) in VersionCover(n, typeNumber)
  {
    hide Rect;
    RectHas(0, n - 11, 6, 3, r, c);
    RectHas(n - 11, 0, 3, 6, r, c);
  }

  // ---- alignment patterns

  /** The 25 modules around a centre. */
  function Box(p: nat, q: nat): (s: CellSet)
    ensures |s| == 25
  {
    RectSize(p as int - 2, q as int - 2, 5, 5);
    Rect(p as int - 2, q as int - 2, 5, 5)
  }

  /** How many of the centres (i, 0), ..., (i, j - 1) carry a pattern. */
  function CentresInRow(k: nat, i: nat, j: nat): (m: int)
  {
    if j == 0 then 0
    else if i == 0 then (if j == k then k - 2 else j - 1)
    else if i == k - 1 then j - 1
    else j
  }

  function AlignmentRow(pos: seq<nat>, i: nat, j: nat): (s: CellSet)
    requires i < |pos| && j <= |pos|
  {
    if j == 0 then {}
    else if IsCentre(pos, i, j - 1) then AlignmentRow(pos, i, j - 1) + Box(pos[i], pos[j - 1])
    else AlignmentRow(pos, i, j - 1)
  }

  function AlignmentRows(pos: seq<nat>, i: nat): (s: CellSet)
    requires i <= |pos|
  {
    if i == 0 then {} else AlignmentRows(pos, i - 1) + AlignmentRow(pos, i - 1, |pos|)
  }

  lemma {:induction false} AlignmentRowSize(pos: seq<nat>, i: nat, j: nat)
    requires i < |pos| && j <= |pos| && |pos| >= 2
    ensures |AlignmentRow(pos, i, j)| <= 25 * CentresInRow(|pos|, i, j)
  {
    hide Box;
    if j > 0 {
      AlignmentRowSize(pos, i, j - 1);
      UnionSize(AlignmentRow(pos, i, j - 1), Box(pos[i], pos[j - 1]));
    }
  }

  lemma {:induction false} AlignmentRowsSize(pos: seq<nat>, i: nat)
    requires i <= |pos| && |pos| >= 2
    ensures |AlignmentRows(pos, i)|
         <= 25 * (if i == 0 then 0 else if i == |pos| then |pos| * |pos| - 3 else i * |pos| - 2)
  {
    hide AlignmentRow;
    if i > 0 {
      AlignmentRowsSize(pos, i - 1);
      AlignmentRowSize(pos, i - 1, |pos|);
      UnionSize(AlignmentRows(pos, i - 1), AlignmentRow(pos, i - 1, |pos|));
      OneMore(i, |pos|);
    }
  }

  lemma {:induction false} InAlignmentRow(pos: seq<nat>, i: nat, j: nat, m: nat, x: (int, int))
    requires m < j <= |pos| && i < |pos| && IsCentre(pos, i, m) && x in Box(pos[i], pos[m])
    ensures x in AlignmentRow(pos, i, j)
  {
    hide Box;
    if m < j - 1 {
      InAlignmentRow(pos, i, j - 1, m, x);
    }
  }

  lemma {:induction false} InAlignmentRows(pos: seq<nat>, i: nat, m: nat, x: (int, int))
    requires m < i <= |pos| && x in AlignmentRow(pos, m, |pos|)
    ensures x in AlignmentRows(pos, i)
  {
    hide AlignmentRow;
    if m < i - 1 {
      InAlignmentRows(pos, i - 1, m, x);
    }
  }

  lemma AlignmentCovered(pos: seq<nat>, r: int, c: int)
    requires InAlignment(pos, r, c)
    ensures (r, c) in AlignmentRows(pos, |pos|)
  {
    hide AlignmentRow, AlignmentRows, Rect;
    var i, j := NearIndex(pos, r).value, NearIndex(pos, c).value;
    RectHas(pos[i] as int - 2, pos[j] as int - 2, 5, 5, r, c);
    InAlignmentRow(pos, i, |pos|, j, (r, c));
    InAlignmentRows(pos, |pos|, i, (r, c));
  }

  // ---- timing patterns, outside the alignment patterns

  /** Modules start .. stop - 1 of both timing patterns. */
  function Stretch(start: int, stop: int): (s: CellSet)
    requires start <= stop
  {
    Rect(6, start, 1, stop - start) + Rect(start, 6, stop - start, 1)
  }

  lemma StretchFacts(start: int, stop: int, x: int)
    requires start <= stop
    ensures |Stretch(start, stop)| <= 2 * (stop - start)
    ensures start <= x < stop ==> (6, x) in Stretch(start, stop) && (x, 6) in Stretch(start, stop)
  {
    hide Rect;
    RectSize(6, start, 1, stop - start);
    RectSize(start, 6, stop - start, 1);
    UnionSize(Rect(6, start, 1, stop - start), Rect(start, 6, stop - start, 1));
    RectHas(6, start, 1, stop - start, 6, x);
    RectHas(start, 6, stop - start, 1, x, 6);
  }

  /** Where the stretch before centre j begins. */
  function GapStart(pos: seq<nat>, j: nat): (c: nat)
    requires 0 < j <= |pos|
  {
    if j == 1 then 8 else pos[j - 1] + 3
  }

  /** The stretches of both timing patterns before centre j. */
  function Gaps(pos: seq<nat>, typeNumber: nat, j: nat): (s: CellSet)
    requires Regular(pos, typeNumber) && j < |pos|
  {
    if j == 0 then {} else Gaps(pos, typeNumber, j - 1) + Stretch(GapStart(pos, j), pos[j] - 2)
  }

  lemma {:induction false} GapsSize(pos: seq<nat>, typeNumber: nat, j: nat)
    requires Regular(pos, typeNumber) && j < |pos|
    ensures |Gaps(pos, typeNumber, j)| <= (if j == 0 then 0 else 2 * (pos[j] - 5 - 5 * j))
  {
    hide Stretch;
    if j > 0 {
      GapsSize(pos, typeNumber, j - 1);
      UnionSize(Gaps(pos, typeNumber, j - 1), Stretch(GapStart(pos, j), pos[j] - 2));
      StretchFacts(GapStart(pos, j), pos[j] - 2, 0);
    }
  }

  lemma {:induction false} InGaps(pos: seq<nat>, typeNumber: nat, j: nat, x: nat)
    requires Regular(pos, typeNumber) && j < |pos|
    requires 8 <= x && x + 2 < pos[j]
    requires forall i :: 0 < i < j ==> !Near(pos[i], x)
    ensures (6, x) in Gaps(pos, typeNumber, j) && (x, 6) in Gaps(pos, typeNumber, j)
  {
    hide Stretch;
    StretchFacts(GapStart(pos, j), pos[j] - 2, x);
    if x < GapStart(pos, j) {
      assert !Near(pos[j - 1], x);
      InGaps(pos, typeNumber, j - 1, x);
    }
  }

  function TimingCover(pos: seq<nat>, typeNumber: nat): (s: CellSet)
    requires Regular(pos, typeNumber)
  {
    var n := ModuleCount(typeNumber);
    if |pos| == 0 then (if n <= 16 then {} else Stretch(8, n - 8))
    else Gaps(pos, typeNumber, |pos| - 1) + Stretch(n - 9, n - 8)
  }

  lemma TimingSize(pos: seq<nat>, typeNumber: nat)
    requires 1 <= typeNumber && Regular(pos, typeNumber)
    ensures |TimingCover(pos, typeNumber)|
         <= 2 * (ModuleCount(typeNumber) - 16) - (if |pos| == 0 then 0 else 10 * (|pos| - 2))
  {
    hide Stretch, Gaps;
    var n := ModuleCount(typeNumber);
    if |pos| == 0 {
      StretchFacts(8, n - 8, 0);
    } else {
      GapsSize(pos, typeNumber, |pos| - 1);
      StretchFacts(n - 9, n - 8, 0);
      UnionSize(Gaps(pos, typeNumber, |pos| - 1), Stretch(n - 9, n - 8));
    }
  }

  /** A timing module away from the inner centres is in a stretch. */
  lemma TimingPoint(pos: seq<nat>, typeNumber: nat, x: nat)
    requires 1 <= typeNumber && Regular(pos, typeNumber)
    requires 8 <= x < ModuleCount(typeNumber) - 8
    requires forall i :: 0 < i < |pos| - 1 ==> !Near(pos[i], x)
    ensures (6, x) in TimingCover(pos, typeNumber) && (x, 6) in TimingCover(pos, typeNumber)
  {
    hide Stretch, Gaps;
    var n := ModuleCount(typeNumber);
    if |pos| == 0 {
      StretchFacts(8, n - 8, x);
    } else if x == n - 9 {
      StretchFacts(n - 9, n - 8, x);
    } else {
      InGaps(pos, typeNumber, |pos| - 1, x);
    }
  }

  lemma TimingCovered(pos: seq<nat>, typeNumber: nat, r: int, c: int)
    requires 1 <= typeNumber && Regular(pos, typeNumber)
    requires InTiming(ModuleCount(typeNumber), r, c) && !InAlignment(pos, r, c)
    ensures (r, c) in TimingCover(pos, typeNumber)
  {
    hide TimingCover, NearIndex;
    var x := if c == 6 then r else c;
    forall i | 0 < i < |pos| - 1
      ensures !Near(pos[i], x)
    {
      if Near(pos[i], x) {
        NearIndexIs(pos, typeNumber, x, i);
        NearIndexIs(pos, typeNumber, 6, 0);
      }
    }
    TimingPoint(pos, typeNumber, x);
  }

  // ---- the total

  function Cover(typeNumber: nat): (s: CellSet)
    requires 1 <= typeNumber <= 40
  {
    TableRegular(typeNumber);
    var n, pos := ModuleCount(typeNumber), PatternPosition(typeNumber);
    FinderCover(n) + (FormatColumn(n) + FormatRow(n)) + VersionCover(n, typeNumber)
    + AlignmentRows(pos, |pos|) + TimingCover(pos, typeNumber)
  }

  lemma CoverHas(typeNumber: nat, r: int, c: int)
    requires 1 <= typeNumber <= 40 && InSymbol(typeNumber, r, c) && IsFunction(typeNumber, r, c)
    ensures (r, c) in Cover(typeNumber)
  {
    hide FinderCover, FormatColumn, FormatRow, VersionCover, AlignmentRows, TimingCover, PatternPosition;
    hide InFinder, InFormat, InVersion, InAlignment, InTiming;
    TableRegular(typeNumber);
    var n, pos := ModuleCount(typeNumber), PatternPosition(typeNumber);
    if InAlignment(pos, r, c) {
      AlignmentCovered(pos, r, c);
    } else if InTiming(n, r, c) {
      TimingCovered(pos, typeNumber, r, c);
    } else if InFinder(n, r, c) {
      FinderCovered(n, r, c);
    } else if InFormat(n, r, c) {
      FormatCovered(n, r, c);
    } else {
      VersionCovered(n, typeNumber, r, c);
    }
  }

  /** Function patterns leave at least the standard's number of data modules. */
  lemma CoverSize(typeNumber: nat)
    requires 1 <= typeNumber <= 40
    ensures |Cover(typeNumber)| <= ModuleCount(typeNumber) * ModuleCount(typeNumber) - DataModules(typeNumber)
  {
    hide FinderCover, FormatColumn, FormatRow, VersionCover, AlignmentRows, TimingCover, PatternPosition;
    TableRegular(typeNumber);
    var n, pos := ModuleCount(typeNumber), PatternPosition(typeNumber);
    FixedSizes(n, typeNumber);
    UnionSize(FormatColumn(n), FormatRow(n));
    var f := FormatColumn(n) + FormatRow(n);
    UnionSize(FinderCover(n), f);
    UnionSize(FinderCover(n) + f, VersionCover(n, typeNumber));
    UnionSize(FinderCover(n) + f + VersionCover(n, typeNumber), AlignmentRows(pos, |pos|));
    UnionSize(FinderCover(n) + f + VersionCover(n, typeNumber) + AlignmentRows(pos, |pos|),
      TimingCover(pos, typeNumber));
    TimingSize(pos, typeNumber);
    if |pos| == 0 {
      NoAlignment(pos);
    } else {
      AlignmentRowsSize(pos, |pos|);
    }
  }

  lemma NoAlignment(pos: seq<nat>)
    requires |pos| == 0
    ensures AlignmentRows(pos, |pos|) == {}
  {
  }
}
