/** The function patterns of a symbol (section 6.3 of ISO/IEC 18004): which modules are not data,
    and what each of them shows. */
module Layout {
  import opened Gf2
  import opened Blocks
  import opened Results

  // ---- alignment centres

  function PatternPosition(typeNumber: nat): (pos: seq<nat>)
  {
    match typeNumber
    case 1 => []
    case 2 => [6, 18]
    case 3 => [6, 22]
    case 4 => [6, 26]
    case 5 => [6, 30]
    case 6 => [6, 34]
    case 7 => [6, 22, 38]
    case 8 => [6, 24, 42]
    case 9 => [6, 26, 46]
    case 10 => [6, 28, 50]
    case 11 => [6, 30, 54]
    case 12 => [6, 32, 58]
    case 13 => [6, 34, 62]
    case 14 => [6, 26, 46, 66]
    case 15 => [6, 26, 48, 70]
    case 16 => [6, 26, 50, 74]
    case 17 => [6, 30, 54, 78]
    case 18 => [6, 30, 56, 82]
    case 19 => [6, 30, 58, 86]
    case 20 => [6, 34, 62, 90]
    case 21 => [6, 28, 50, 72, 94]
    case 22 => [6, 26, 50, 74, 98]
    case 23 => [6, 30, 54, 78, 102]
    case 24 => [6, 28, 54, 80, 106]
    case 25 => [6, 32, 58, 84, 110]
    case 26 => [6, 30, 58, 86, 114]
    case 27 => [6, 34, 62, 90, 118]
    case 28 => [6, 26, 50, 74, 98, 122]
    case 29 => [6, 30, 54, 78, 102, 126]
    case 30 => [6, 26, 52, 78, 104, 130]
    case 31 => [6, 30, 56, 82, 108, 134]
    case 32 => [6, 34, 60, 86, 112, 138]
    case 33 => [6, 30, 58, 86, 114, 142]
    case 34 => [6, 34, 62, 90, 118, 146]
    case 35 => [6, 30, 54, 78, 102, 126, 150]
    case 36 => [6, 24, 50, 76, 102, 128, 154]
    case 37 => [6, 28, 54, 80, 106, 132, 158]
    case 38 => [6, 32, 58, 84, 110, 136, 162]
    case 39 => [6, 26, 54, 82, 110, 138, 166]
    case 40 => [6, 30, 58, 86, 114, 142, 170]
    case _ => []
  }

  /** The regularities of the table that the layout rests on. */
  predicate Regular(pos: seq<nat>, typeNumber: nat)
  {
    && |pos| == CentreCount(typeNumber)
    && (|pos| > 0 ==> |pos| >= 2 && pos[0] == 6 && pos[|pos| - 1] == ModuleCount(typeNumber) - 7)
    && (forall i :: 0 <= i < |pos| ==> pos[i] % 2 == 0)
    && (forall i :: 0 < i < |pos| ==> pos[i] >= pos[i - 1] + 12)
  }

  lemma TableRegular0(typeNumber: nat)
    requires 1 <= typeNumber <= 10
    ensures Regular(PatternPosition(typeNumber), typeNumber)
  {
  }

  lemma TableRegular1(typeNumber: nat)
    requires 11 <= typeNumber <= 18
    ensures Regular(PatternPosition(typeNumber), typeNumber)
  {
  }

  lemma TableRegular2(typeNumber: nat)
    requires 19 <= typeNumber <= 24
    ensures Regular(PatternPosition(typeNumber), typeNumber)
  {
  }

  lemma TableRegular3(typeNumber: nat)
    requires 25 <= typeNumber <= 28
    ensures Regular(PatternPosition(typeNumber), typeNumber)
  {
  }

  lemma TableRegular4(typeNumber: nat)
    requires 29 <= typeNumber <= 32
    ensures Regular(PatternPosition(typeNumber), typeNumber)
  {
  }

  lemma TableRegular5(typeNumber: nat)
    requires 33 <= typeNumber <= 36
    ensures Regular(PatternPosition(typeNumber), typeNumber)
  {
  }

  lemma TableRegular6(typeNumber: nat)
    requires 37 <= typeNumber <= 40
    ensures Regular(PatternPosition(typeNumber), typeNumber)
  {
  }

  lemma TableRegular(typeNumber: nat)
    requires 1 <= typeNumber <= 40
    ensures Regular(PatternPosition(typeNumber), typeNumber)
  {
    hide PatternPosition, Regular;
    if typeNumber <= 10 {
      TableRegular0(typeNumber);
    } else if typeNumber <= 18 {
      TableRegular1(typeNumber);
    } else if typeNumber <= 24 {
      TableRegular2(typeNumber);
    } else if typeNumber <= 28 {
      TableRegular3(typeNumber);
    } else if typeNumber <= 32 {
      TableRegular4(typeNumber);
    } else if typeNumber <= 36 {
      TableRegular5(typeNumber);
    } else {
      TableRegular6(typeNumber);
    }
  }

  lemma {:induction false} CentresApart(pos: seq<nat>, v: nat, i: nat, j: nat)
    requires Regular(pos, v) && i < j < |pos|
    ensures pos[i] + 12 * (j - i) <= pos[j]
    decreases j
  {
    if i + 1 < j {
      CentresApart(pos, v, i, j - 1);
    }
  }

  predicate Near(p: nat, x: int)
  {
    p - 2 <= x <= p + 2
  }

  /** The index of the centre coordinate within two of x. */
  function NearIndex(pos: seq<nat>, x: int): (r: Option<nat>)
    ensures r.Some? ==> r.value < |pos| && Near(pos[r.value], x)
    ensures r.None? ==> forall i :: 0 <= i < |pos| ==> !Near(pos[i], x)
  {
    if pos == [] then None
    else if Near(pos[|pos| - 1], x) then Some(|pos| - 1)
    else NearIndex(pos[..|pos| - 1], x)
  }

  lemma NearIndexIs(pos: seq<nat>, v: nat, x: int, i: nat)
    requires Regular(pos, v) && i < |pos| && Near(pos[i], x)
    ensures NearIndex(pos, x) == Some(i)
  {
    var j := NearIndex(pos, x).value;
    if i < j {
      CentresApart(pos, v, i, j);
    } else if j < i {
      CentresApart(pos, v, j, i);
    }
  }

  /** Centres in the three finder corners are left out. */
  predicate IsCentre(pos: seq<nat>, i: nat, j: nat)
  {
    && i < |pos| && j < |pos|
    && !(i == 0 && j == 0) && !(i == 0 && j == |pos| - 1) && !(i == |pos| - 1 && j == 0)
  }

  // ---- the regions

  function Abs(x: int): (r: nat)
  {
    if x < 0 then -x else x
  }

  /** Distance in rings: the larger of the two coordinate differences. */
  function Ring(p: int, q: int, r: int, c: int): (d: nat)
  {
    var a, b := Abs(r - p), Abs(c - q);
    if a >= b then a else b
  }

  /** A finder has a dark core of rings 0 and 1, a light ring, a dark ring, and a light separator. */
  function FinderDark(d: nat): (dark: bool)
  {
    d <= 1 || d == 3
  }

  /** An alignment pattern has a dark core, a light ring and a dark ring. */
  function AlignmentDark(d: nat): (dark: bool)
  {
    d != 1
  }

  predicate InFinder(n: nat, r: int, c: int)
  {
    (r < 8 && c < 8) || (r >= n - 8 && c < 8) || (r < 8 && c >= n - 8)
  }

  /** Ring number within the finder that a module belongs to. */
  function FinderRing(n: nat, r: int, c: int): (d: nat)
  {
    Ring(if r < 8 then 3 else n - 4, if c < 8 then 3 else n - 4, r, c)
  }

  predicate InAlignment(pos: seq<nat>, r: int, c: int)
  {
    var i, j := NearIndex(pos, r), NearIndex(pos, c);
    i.Some? && j.Some? && IsCentre(pos, i.value, j.value)
  }

  function AlignmentRing(pos: seq<nat>, r: int, c: int): (d: nat)
    requires InAlignment(pos, r, c)
  {
    Ring(pos[NearIndex(pos, r).value], pos[NearIndex(pos, c).value], r, c)
  }

  predicate InTiming(n: nat, r: int, c: int)
  {
    (c == 6 && 8 <= r < n - 8) || (r == 6 && 8 <= c < n - 8)
  }

  function TimingDark(r: int, c: int): (dark: bool)
  {
    (r + c) % 2 == 0
  }

  /** Both copies of the format information and the module that is always dark. */
  predicate InFormat(n: nat, r: int, c: int)
  {
    || (c == 8 && ((0 <= r <= 8 && r != 6) || n - 8 <= r < n))
    || (r == 8 && ((0 <= c <= 8 && c != 6) || n - 8 <= c < n))
  }

  /** Which bit of the format code word a module shows; 15 stands for the dark module. */
  function FormatIndex(n: nat, r: int, c: int): (i: nat)
    requires n >= 21 && InFormat(n, r, c)
    ensures i <= 15
  {
    if c == 8 then
      if r < 6 then r else if r <= 8 then r - 1 else if r == n - 8 then 15 else r - n + 15
    else
      if c < 6 then 14 - c else if c == 7 then 8 else n - 1 - c
  }

  predicate InVersion(n: nat, typeNumber: nat, r: int, c: int)
  {
    typeNumber >= 7 && ((0 <= r < 6 && n - 11 <= c < n - 8) || (0 <= c < 6 && n - 11 <= r < n - 8))
  }

  function VersionIndex(n: nat, typeNumber: nat, r: int, c: int): (i: nat)
    requires n >= 21 && InVersion(n, typeNumber, r, c)
    ensures i < 18
  {
    if r < 6 then 3 * r + (c - (n - 11)) else 3 * c + (r - (n - 11))
  }

  function BitOf(word: nat, i: nat): (b: bool)
  {
    Shr(word, i) % 2 == 1
  }

  predicate InSymbol(typeNumber: nat, r: int, c: int)
  {
    0 <= r < ModuleCount(typeNumber) && 0 <= c < ModuleCount(typeNumber)
  }

  /** Not a data module. */
  predicate IsFunction(typeNumber: nat, r: int, c: int)
  {
    var n, pos := ModuleCount(typeNumber), PatternPosition(typeNumber);
    || InFinder(n, r, c) || InAlignment(pos, r, c) || InTiming(n, r, c)
    || InFormat(n, r, c) || InVersion(n, typeNumber, r, c)
  }

  // ---- the regions do not conflict

  /** Timing patterns and alignment patterns are the only regions that overlap, and they agree there. */
  lemma AlignmentMatchesTiming(typeNumber: nat, r: int, c: int)
    requires 1 <= typeNumber <= 40
    requires var pos := PatternPosition(typeNumber);
             InAlignment(pos, r, c) && InTiming(ModuleCount(typeNumber), r, c)
    ensures AlignmentDark(AlignmentRing(PatternPosition(typeNumber), r, c)) == TimingDark(r, c)
  {
    var pos := PatternPosition(typeNumber);
    TableRegular(typeNumber);
    hide PatternPosition, NearIndex, TimingDark;
    NearIndexIs(pos, typeNumber, 6, 0);
    if c == 6 {
      EvenCentre(pos[NearIndex(pos, r).value], r);
    } else {
      EvenCentre(pos[NearIndex(pos, c).value], c);
    }
  }

  /** Along the timing pattern, the ring number of an even centre has the parity of the module. */
  lemma EvenCentre(p: nat, x: int)
    requires p % 2 == 0 && Near(p, x)
    ensures AlignmentDark(Ring(p, 6, x, 6)) == TimingDark(x, 6)
    ensures AlignmentDark(Ring(6, p, 6, x)) == TimingDark(6, x)
  {
  }

  lemma AlignmentAvoidsOthers(typeNumber: nat, r: int, c: int)
    requires 1 <= typeNumber <= 40 && InSymbol(typeNumber, r, c)
    requires InAlignment(PatternPosition(typeNumber), r, c)
    ensures !InFinder(ModuleCount(typeNumber), r, c)
    ensures !InFormat(ModuleCount(typeNumber), r, c)
    ensures !InVersion(ModuleCount(typeNumber), typeNumber, r, c)
  {
    var pos := PatternPosition(typeNumber);
    TableRegular(typeNumber);
    hide PatternPosition, NearIndex;
    var i, j := NearIndex(pos, r).value, NearIndex(pos, c).value;
    CoordinateSide(pos, typeNumber, i, r);
    CoordinateSide(pos, typeNumber, j, c);
  }

  /** Where a coordinate near centre i can be. */
  lemma CoordinateSide(pos: seq<nat>, typeNumber: nat, i: nat, x: int)
    requires Regular(pos, typeNumber) && i < |pos| && Near(pos[i], x)
    ensures x < 14 ==> i == 0
    ensures x >= ModuleCount(typeNumber) - 16 ==> i == |pos| - 1
    ensures i == 0 ==> 4 <= x <= 8
    ensures i == |pos| - 1 ==> ModuleCount(typeNumber) - 9 <= x <= ModuleCount(typeNumber) - 5
  {
    if i > 0 {
      CentresApart(pos, typeNumber, 0, i);
    }
    if i < |pos| - 1 {
      CentresApart(pos, typeNumber, i, |pos| - 1);
    }
  }

  lemma OthersDisjoint(typeNumber: nat, r: int, c: int)
    requires 1 <= typeNumber && InSymbol(typeNumber, r, c)
    ensures var n := ModuleCount(typeNumber);
            && !(InFinder(n, r, c) && InTiming(n, r, c))
            && !(InFinder(n, r, c) && InFormat(n, r, c))
            && !(InFinder(n, r, c) && InVersion(n, typeNumber, r, c))
            && !(InTiming(n, r, c) && InFormat(n, r, c))
            && !(InTiming(n, r, c) && InVersion(n, typeNumber, r, c))
            && !(InFormat(n, r, c) && InVersion(n, typeNumber, r, c))
  {
  }

  /** Column 6 holds no data. */
  lemma ColumnSixIsFull(typeNumber: nat, r: int)
    requires 1 <= typeNumber && 0 <= r < ModuleCount(typeNumber)
    ensures IsFunction(typeNumber, r, 6)
  {
    hide PatternPosition, NearIndex;
  }
}
