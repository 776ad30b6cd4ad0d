/** `getLostPoint`: the penalty of a finished matrix, over exact reals. */
module Penalty {
  import opened DataPlacement
  import opened PenaltyRules
  import opened Results

  /** The matrix shows a finished symbol. */
  ghost predicate Shows(modules: array2<Cell>, g: Grid)
    reads modules
  {
    && IsSquare(g)
    && modules.Length0 == |g| && modules.Length1 == |g|
    && forall r, c :: 0 <= r < |g| && 0 <= c < |g| ==> modules[r, c] == Some(g[r][c])
  }

  function AbsReal(x: real): (r: real)
  {
    if x < 0.0 then -x else x
  }

  // ---- counting position by position

  /** Visited before the given position, row by row or column by column. */
  predicate Earlier(byColumn: bool, r: nat, c: nat, outer: nat, inner: nat)
  {
    var o, i := if byColumn then c else r, if byColumn then r else c;
    o < outer || (o == outer && i < inner)
  }

  ghost function Before(x: Feature, g: Grid, byColumn: bool, outer: nat, inner: nat): (s: set<Position>)
    requires IsSquare(g)
  {
    set r: nat, c: nat | r < |g| && c < |g| && Has(x, g, r, c) && Earlier(byColumn, r, c, outer, inner) :: (r, c)
  }

  ghost predicate At(x: Feature, g: Grid, byColumn: bool, outer: nat, inner: nat)
    requires IsSquare(g) && outer < |g| && inner < |g|
  {
    if byColumn then Has(x, g, inner, outer) else Has(x, g, outer, inner)
  }

  lemma NoneBefore(x: Feature, g: Grid, byColumn: bool)
    requires IsSquare(g)
    ensures Before(x, g, byColumn, 0, 0) == {}
  {
    hide Has;
  }

  lemma OneMore(x: Feature, g: Grid, byColumn: bool, outer: nat, inner: nat)
    requires IsSquare(g) && outer < |g| && inner < |g|
    ensures |Before(x, g, byColumn, outer, inner + 1)| == |Before(x, g, byColumn, outer, inner)|
         + if At(x, g, byColumn, outer, inner) then 1 else 0
  {
    hide Before, Has;
    var s, t := Before(x, g, byColumn, outer, inner), Before(x, g, byColumn, outer, inner + 1);
    var here: Position := if byColumn then (inner, outer) else (outer, inner);
    forall p: Position
      ensures p in t <==> p in s || (p == here && At(x, g, byColumn, outer, inner))
      ensures here !in s
    {
      BeforeHas(x, g, byColumn, outer, inner, p);
      BeforeHas(x, g, byColumn, outer, inner, here);
      BeforeHas(x, g, byColumn, outer, inner + 1, p);
    }
    Grown(s, t, here, At(x, g, byColumn, outer, inner));
  }

  lemma BeforeHas(x: Feature, g: Grid, byColumn: bool, outer: nat, inner: nat, p: Position)
    requires IsSquare(g)
    ensures p in Before(x, g, byColumn, outer, inner) <==>
      p.0 < |g| && p.1 < |g| && Has(x, g, p.0, p.1) && Earlier(byColumn, p.0, p.1, outer, inner)
  {
    hide Has, Earlier;
  }

  /** One position more, if it counts. */
  lemma Grown(s: set<Position>, t: set<Position>, here: Position, counts: bool)
    requires here !in s
    requires forall p: Position :: p in t <==> p in s || (p == here && counts)
    ensures |t| == |s| + if counts then 1 else 0
  {
    assert t == s + if counts then {here} else {};
  }

  /** A line is done when nothing is found on the rest of it. */
  lemma LineDone(x: Feature, g: Grid, byColumn: bool, outer: nat, inner: nat)
    requires IsSquare(g) && outer < |g|
    requires forall i: nat :: inner <= i < |g| ==> !At(x, g, byColumn, outer, i)
    ensures Before(x, g, byColumn, outer + 1, 0) == Before(x, g, byColumn, outer, inner)
  {
    hide Has;
    forall p: Position
      ensures p in Before(x, g, byColumn, outer + 1, 0) <==> p in Before(x, g, byColumn, outer, inner)
    {
      var o, i := if byColumn then p.1 else p.0, if byColumn then p.0 else p.1;
      if o == outer && inner <= i < |g| {
        assert !At(x, g, byColumn, outer, i);
      }
    }
  }

  lemma AllDone(x: Feature, g: Grid, byColumn: bool, outer: nat)
    requires IsSquare(g)
    requires forall o: nat, i: nat :: outer <= o < |g| && i < |g| ==> !At(x, g, byColumn, o, i)
    ensures Before(x, g, byColumn, outer, 0) == Found(x, g)
  {
    hide Has;
    forall p: Position
      ensures p in Before(x, g, byColumn, outer, 0) <==> p in Found(x, g)
    {
      var o, i := if byColumn then p.1 else p.0, if byColumn then p.0 else p.1;
      if outer <= o < |g| && i < |g| {
        assert !At(x, g, byColumn, o, i);
      }
    }
  }

  // ---- the loops

  method IsDark(modules: array2<Cell>, ghost g: Grid, row: nat, col: nat) returns (dark: bool)
    requires Shows(modules, g) && row < modules.Length0 && col < modules.Length0
    ensures dark == g[row][col]
  {
    dark := modules[row, col] == Some(true);
  }

  /** The neighbours among the first k of the nine positions around a module, row by row. */
  ghost function NeighboursBefore(g: Grid, r: nat, c: nat, k: int): (s: set<Position>)
    requires IsSquare(g) && r < |g| && c < |g|
  {
    set x | x in EqualNeighbours(g, r, c) && 3 * (x.0 - r + 1) + (x.1 - c + 1) < k
  }

  lemma NextNeighbour(g: Grid, row: nat, col: nat, r: int, c: int)
    requires IsSquare(g) && row < |g| && col < |g| && -1 <= r <= 1 && -1 <= c <= 1
    ensures var k := 3 * (r + 1) + (c + 1);
            |NeighboursBefore(g, row, col, k + 1)| == |NeighboursBefore(g, row, col, k)|
              + if 0 <= row + r < |g| && 0 <= col + c < |g| && !(r == 0 && c == 0)
                   && g[row][col] == g[row + r][col + c] then 1 else 0
  {
    hide EqualNeighbours;
    var k := 3 * (r + 1) + (c + 1);
    var s, t := NeighboursBefore(g, row, col, k), NeighboursBefore(g, row, col, k + 1);
    if 0 <= row + r && 0 <= col + c {
      var here: Position := (row + r, col + c);
      NeighbourHas(g, row, col, here);
      forall p: Position
        ensures p in t <==> p in s || (p == here && here in EqualNeighbours(g, row, col))
      {
        NeighbourHas(g, row, col, p);
      }
      Grown(s, t, here, here in EqualNeighbours(g, row, col));
    } else {
      forall p: Position
        ensures p in t <==> p in s
      {
        NeighbourHas(g, row, col, p);
      }
      assert t == s;
    }
  }

  lemma NeighbourHas(g: Grid, row: nat, col: nat, p: Position)
    requires IsSquare(g) && row < |g| && col < |g|
    ensures p in EqualNeighbours(g, row, col) <==>
      p.0 < |g| && p.1 < |g| && -1 <= p.0 - row <= 1 && -1 <= p.1 - col <= 1 && !(p.0 == row && p.1 == col)
      && g[p.0][p.1] == g[row][col]
  {
  }

  lemma NeighbourEnds(g: Grid, row: nat, col: nat)
    requires IsSquare(g) && row < |g| && col < |g|
    ensures NeighboursBefore(g, row, col, 0) == {}
    ensures NeighboursBefore(g, row, col, 9) == EqualNeighbours(g, row, col)
  {
  }

  /** Whether the neighbour at a distance is inside, not the module itself, and of its colour. */
  method SameAt(modules: array2<Cell>, ghost g: Grid, row: nat, col: nat, dark: bool, r: int, c: int)
    returns (same: bool)
    requires Shows(modules, g) && row < modules.Length0 && col < modules.Length0
    ensures same <==> 0 <= row + r < |g| && 0 <= col + c < |g| && !(r == 0 && c == 0)
                      && dark == g[row + r][col + c]
  {
    ShowsSide(modules, g);
    hide Shows;
    same := false;
    if 0 <= row + r < modules.Length0 && 0 <= col + c < modules.Length0 && !(r == 0 && c == 0) {
      var other := IsDark(modules, g, row + r, col + c);
      same := dark == other;
    }
  }

  method CountSame(modules: array2<Cell>, ghost g: Grid, row: nat, col: nat) returns (sameCount: nat)
    requires Shows(modules, g) && row < modules.Length0 && col < modules.Length0
    ensures sameCount == |EqualNeighbours(g, row, col)|
  {
    ShowsSide(modules, g);
    assert IsSquare(g);
    NeighbourEnds(g, row, col);
    hide Shows, IsSquare, EqualNeighbours, NeighboursBefore;
    sameCount := 0;
    var dark := IsDark(modules, g, row, col);
    for r := -1 to 2
      invariant sameCount == |NeighboursBefore(g, row, col, 3 * (r + 1))|
    {
      for c := -1 to 2
        invariant sameCount == |NeighboursBefore(g, row, col, 3 * (r + 1) + (c + 1))|
      {
        NextNeighbour(g, row, col, r, c);
        var same := SameAt(modules, g, row, col, dark, r, c);
        if same {
          sameCount := sameCount + 1;
        }
      }
    }
  }

  /** What crowded modules cost before a position. */
  ghost function CrowdedBefore(g: Grid, row: nat, col: nat): (n: nat)
    requires IsSquare(g)
  {
    4 * |Before(Crowded(6), g, false, row, col)| + |Before(Crowded(7), g, false, row, col)|
    + |Before(Crowded(8), g, false, row, col)|
  }

  lemma NextCrowded(g: Grid, row: nat, col: nat)
    requires IsSquare(g) && row < |g| && col < |g|
    ensures |EqualNeighbours(g, row, col)| <= 8
    ensures var n := |EqualNeighbours(g, row, col)|;
            CrowdedBefore(g, row, col + 1) == CrowdedBefore(g, row, col) + if n > 5 then 3 + n - 5 else 0
  {
    hide Before, EqualNeighbours;
    AtMostEight(g, row, col);
    OneMore(Crowded(6), g, false, row, col);
    OneMore(Crowded(7), g, false, row, col);
    OneMore(Crowded(8), g, false, row, col);
  }

  lemma AtMostEight(g: Grid, row: nat, col: nat)
    requires IsSquare(g) && row < |g| && col < |g|
    ensures |EqualNeighbours(g, row, col)| <= 8
  {
    NeighbourEnds(g, row, col);
    hide NeighboursBefore, EqualNeighbours;
    NextNeighbour(g, row, col, -1, -1);
    NextNeighbour(g, row, col, -1, 0);
    NextNeighbour(g, row, col, -1, 1);
    NextNeighbour(g, row, col, 0, -1);
    NextNeighbour(g, row, col, 0, 0);
    NextNeighbour(g, row, col, 0, 1);
    NextNeighbour(g, row, col, 1, -1);
    NextNeighbour(g, row, col, 1, 0);
    NextNeighbour(g, row, col, 1, 1);
  }

  lemma CrowdedLine(g: Grid, row: nat)
    requires IsSquare(g) && row < |g|
    ensures CrowdedBefore(g, row + 1, 0) == CrowdedBefore(g, row, |g|)
  {
    hide Before;
    LineDone(Crowded(6), g, false, row, |g|);
    LineDone(Crowded(7), g, false, row, |g|);
    LineDone(Crowded(8), g, false, row, |g|);
  }

  lemma CrowdedEnds(g: Grid)
    requires IsSquare(g)
    ensures CrowdedBefore(g, 0, 0) == 0
    ensures CrowdedBefore(g, |g|, 0) == 4 * |Found(Crowded(6), g)| + |Found(Crowded(7), g)| + |Found(Crowded(8), g)|
  {
    hide Before, Found;
    NoneBefore(Crowded(6), g, false);
    NoneBefore(Crowded(7), g, false);
    NoneBefore(Crowded(8), g, false);
    AllDone(Crowded(6), g, false, |g|);
    AllDone(Crowded(7), g, false, |g|);
    AllDone(Crowded(8), g, false, |g|);
  }

  method NeighbourTotal(modules: array2<Cell>, ghost g: Grid) returns (lostPoint: nat)
    requires Shows(modules, g)
    ensures lostPoint == 4 * |Found(Crowded(6), g)| + |Found(Crowded(7), g)| + |Found(Crowded(8), g)|
  {
    hide EqualNeighbours, Found, CrowdedBefore, Shows, IsSquare;
    ShowsSide(modules, g);
    CrowdedEnds(g);
    lostPoint := 0;
    for row := 0 to modules.Length0
      invariant lostPoint == CrowdedBefore(g, row, 0)
    {
      for col := 0 to modules.Length0
        invariant lostPoint == CrowdedBefore(g, row, col)
      {
        var sameCount := CountSame(modules, g, row, col);
        NextCrowded(g, row, col);
        if sameCount > 5 {
          lostPoint := lostPoint + (3 + sameCount - 5);
        }
      }
      CrowdedLine(g, row);
    }
  }

  method SquareTotal(modules: array2<Cell>, ghost g: Grid) returns (lostPoint: nat)
    requires Shows(modules, g) && |g| > 0
    ensures lostPoint == 3 * |Found(OneColour, g)|
  {
    hide Before, Found, Shows, IsSquare;
    ShowsSide(modules, g);
    NoneBefore(OneColour, g, false);
    lostPoint := 0;
    for row := 0 to modules.Length0 - 1
      invariant lostPoint == 3 * |Before(OneColour, g, false, row, 0)|
    {
      for col := 0 to modules.Length0 - 1
        invariant lostPoint == 3 * |Before(OneColour, g, false, row, col)|
      {
        var a := IsDark(modules, g, row, col);
        var b := IsDark(modules, g, row + 1, col);
        var c := IsDark(modules, g, row, col + 1);
        var d := IsDark(modules, g, row + 1, col + 1);
        var count := (if a then 1 else 0) + (if b then 1 else 0) + (if c then 1 else 0) + (if d then 1 else 0);
        OneMore(OneColour, g, false, row, col);
        if count == 0 || count == 4 {
          lostPoint := lostPoint + 3;
        }
      }
      LineDone(OneColour, g, false, row, |g| - 1);
    }
    AllDone(OneColour, g, false, |g| - 1);
  }

  /** The two stretches, unrolled. */
  lemma StretchIs(g: Grid, r: nat, c: nat)
    requires IsSquare(g) && r < |g| && c < |g|
    ensures c + 6 < |g| ==> (Has(AlongRow, g, r, c) <==> IsStretch(g[r][c], g[r][c + 1], g[r][c + 2], g[r][c + 3],
                                                                   g[r][c + 4], g[r][c + 5], g[r][c + 6]))
    ensures r + 6 < |g| ==> (Has(AlongColumn, g, r, c) <==> IsStretch(g[r][c], g[r + 1][c], g[r + 2][c], g[r + 3][c],
                                                                      g[r + 4][c], g[r + 5][c], g[r + 6][c]))
  {
    var s := Stretch();
    if c + 6 < |g| && Has(AlongRow, g, r, c) {
      assert g[r][c + 0] == s[0] && g[r][c + 1] == s[1] && g[r][c + 2] == s[2] && g[r][c + 3] == s[3]
          && g[r][c + 4] == s[4] && g[r][c + 5] == s[5] && g[r][c + 6] == s[6];
    }
    if r + 6 < |g| && Has(AlongColumn, g, r, c) {
      assert g[r + 0][c] == s[0] && g[r + 1][c] == s[1] && g[r + 2][c] == s[2] && g[r + 3][c] == s[3]
          && g[r + 4][c] == s[4] && g[r + 5][c] == s[5] && g[r + 6][c] == s[6];
    }
  }

  predicate IsStretch(a: bool, b: bool, c: bool, d: bool, e: bool, f: bool, h: bool)
  {
    a && !b && c && d && e && !f && h
  }

  method RowStretchTotal(modules: array2<Cell>, ghost g: Grid) returns (lostPoint: nat)
    requires Shows(modules, g) && |g| >= 6
    ensures lostPoint == 40 * |Found(AlongRow, g)|
  {
    hide Before, Found, Shows, IsSquare;
    ShowsSide(modules, g);
    NoneBefore(AlongRow, g, false);
    lostPoint := 0;
    for row := 0 to modules.Length0
      invariant lostPoint == 40 * |Before(AlongRow, g, false, row, 0)|
    {
      for col := 0 to modules.Length0 - 6
        invariant lostPoint == 40 * |Before(AlongRow, g, false, row, col)|
      {
        var a := IsDark(modules, g, row, col);
        var b := IsDark(modules, g, row, col + 1);
        var c := IsDark(modules, g, row, col + 2);
        var d := IsDark(modules, g, row, col + 3);
        var e := IsDark(modules, g, row, col + 4);
        var f := IsDark(modules, g, row, col + 5);
        var h := IsDark(modules, g, row, col + 6);
        StretchIs(g, row, col);
        OneMore(AlongRow, g, false, row, col);
        if a && !b && c && d && e && !f && h {
          lostPoint := lostPoint + 40;
        }
      }
      LineDone(AlongRow, g, false, row, |g| - 6);
    }
    AllDone(AlongRow, g, false, |g|);
  }

  method ColumnStretchTotal(modules: array2<Cell>, ghost g: Grid) returns (lostPoint: nat)
    requires Shows(modules, g) && |g| >= 6
    ensures lostPoint == 40 * |Found(AlongColumn, g)|
  {
    hide Before, Found, Shows, IsSquare;
    ShowsSide(modules, g);
    NoneBefore(AlongColumn, g, true);
    lostPoint := 0;
    for col := 0 to modules.Length0
      invariant lostPoint == 40 * |Before(AlongColumn, g, true, col, 0)|
    {
      for row := 0 to modules.Length0 - 6
        invariant lostPoint == 40 * |Before(AlongColumn, g, true, col, row)|
      {
        var a := IsDark(modules, g, row, col);
        var b := IsDark(modules, g, row + 1, col);
        var c := IsDark(modules, g, row + 2, col);
        var d := IsDark(modules, g, row + 3, col);
        var e := IsDark(modules, g, row + 4, col);
        var f := IsDark(modules, g, row + 5, col);
        var h := IsDark(modules, g, row + 6, col);
        StretchIs(g, row, col);
        OneMore(AlongColumn, g, true, col, row);
        if a && !b && c && d && e && !f && h {
          lostPoint := lostPoint + 40;
        }
      }
      LineDone(AlongColumn, g, true, col, |g| - 6);
    }
    AllDone(AlongColumn, g, true, |g|);
  }

  method DarkTotal(modules: array2<Cell>, ghost g: Grid) returns (darkCount: nat)
    requires Shows(modules, g)
    ensures darkCount == |Found(DarkModule, g)|
  {
    hide Before, Found, Shows, IsSquare;
    ShowsSide(modules, g);
    NoneBefore(DarkModule, g, true);
    darkCount := 0;
    for col := 0 to modules.Length0
      invariant darkCount == |Before(DarkModule, g, true, col, 0)|
    {
      for row := 0 to modules.Length0
        invariant darkCount == |Before(DarkModule, g, true, col, row)|
      {
        var dark := IsDark(modules, g, row, col);
        OneMore(DarkModule, g, true, col, row);
        if dark {
          darkCount := darkCount + 1;
        }
      }
      LineDone(DarkModule, g, true, col, |g|);
    }
    AllDone(DarkModule, g, true, |g|);
  }

  /** Every module is dark or light. */
  lemma {:induction false} DarkAndLight(g: Grid, outer: nat, inner: nat)
    requires IsSquare(g) && outer < |g| && inner <= |g|
    ensures |Before(DarkModule, g, false, outer, inner)| + |Before(LightModule, g, false, outer, inner)|
         == outer * |g| + inner
  {
    hide Before;
    if inner > 0 {
      DarkAndLight(g, outer, inner - 1);
      OneMore(DarkModule, g, false, outer, inner - 1);
      OneMore(LightModule, g, false, outer, inner - 1);
    } else if outer > 0 {
      DarkAndLight(g, outer - 1, |g|);
      LineDone(DarkModule, g, false, outer - 1, |g|);
      LineDone(LightModule, g, false, outer - 1, |g|);
      assert (outer - 1) * |g| + |g| == outer * |g|;
    } else {
      NoneBefore(DarkModule, g, false);
      NoneBefore(LightModule, g, false);
    }
  }

  lemma AllModules(g: Grid)
    requires IsSquare(g) && |g| > 0
    ensures |Found(DarkModule, g)| + |Found(LightModule, g)| == |g| * |g|
  {
    hide Before, Found;
    var n := |g|;
    DarkAndLight(g, n - 1, n);
    LineDone(DarkModule, g, false, n - 1, n);
    LineDone(LightModule, g, false, n - 1, n);
    AllDone(DarkModule, g, false, n);
    AllDone(LightModule, g, false, n);
    assert (n - 1) * n + n == n * n;
  }

  /** The deviation of the percentage from fifty, in steps of five, against the difference of the counts. */
  lemma Deviation(dark: nat, light: nat, n: nat)
    requires n > 0 && dark + light == n * n
    ensures AbsReal(100.0 * dark as real / n as real / n as real - 50.0) / 5.0 * 10.0
         == 100.0 * Distance(dark, light) as real / (n * n) as real
  {
    var d, l, m := dark as real, light as real, n as real;
    var p := 100.0 * d / m / m;
    SquareAsReal(n);
    DividedTwice(100.0 * d, m);
    Shifted(p, m * m, 100.0 * d, d + l);
    Quotient(p - 50.0, 50.0 * (d - l), m * m);
    assert AbsReal(50.0 * (d - l)) == 50.0 * Distance(dark, light) as real;
  }

  lemma SquareAsReal(n: nat)
    ensures (n * n) as real == n as real * n as real
  {
  }

  lemma DividedTwice(x: real, m: real)
    requires m > 0.0
    ensures x / m / m * (m * m) == x
  {
    var u := x / m;
    assert u * m == x;
    var v := u / m;
    assert v * m == u;
    assert v * (m * m) == (v * m) * m;
  }

  lemma Shifted(p: real, z: real, x: real, y: real)
    requires p * z == x && z == y
    ensures (p - 50.0) * z == x - 50.0 * y
  {
  }

  lemma Quotient(x: real, y: real, z: real)
    requires z > 0.0 && x * z == y
    ensures AbsReal(x) / 5.0 * 10.0 == 2.0 * AbsReal(y) / z
  {
    assert AbsReal(x) * z == AbsReal(y);
    Cancelled(AbsReal(x), AbsReal(y), z);
  }

  lemma Cancelled(x: real, y: real, z: real)
    requires z > 0.0 && x * z == y
    ensures x / 5.0 * 10.0 == 2.0 * y / z
  {
    assert 2.0 * y == (2.0 * x) * z;
    assert 2.0 * y / z == 2.0 * x;
  }

  method GetLostPoint(modules: array2<Cell>, ghost g: Grid) returns (lostPoint: real)
    requires Shows(modules, g) && |g| >= 21
    ensures lostPoint == PenaltyScore(g)
  {
    ShowsSide(modules, g);
    hide Found, Shows;
    var a := NeighbourTotal(modules, g);
    var b := SquareTotal(modules, g);
    var c := RowStretchTotal(modules, g);
    var d := ColumnStretchTotal(modules, g);
    var darkCount := DarkTotal(modules, g);
    AllModules(g);
    Deviation(darkCount, |Found(LightModule, g)|, |g|);
    var moduleCount := modules.Length0;
    var ratio := AbsReal(100.0 * darkCount as real / moduleCount as real / moduleCount as real - 50.0) / 5.0;
    lostPoint := (a + b + c + d) as real + ratio * 10.0;
  }

  lemma ShowsSide(modules: array2<Cell>, g: Grid)
    requires Shows(modules, g)
    ensures modules.Length0 == |g| && IsSquare(g)
  {
  }
}
