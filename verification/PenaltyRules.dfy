/** What a symbol is penalised for, counted as sets of positions. */
module PenaltyRules {
  import opened DataPlacement

  type Position = (nat, nat)

  /** The modules around module (r, c), up to eight, that have its colour. */
  ghost function EqualNeighbours(g: Grid, r: nat, c: nat): (s: set<Position>)
    requires IsSquare(g) && r < |g| && c < |g|
  {
    set r': nat, c': nat | r' < |g| && c' < |g| && IsNear(r, r') && IsNear(c, c') && !(r' == r && c' == c)
                           && g[r'][c'] == g[r][c] :: (r', c')
  }

  predicate IsNear(a: nat, b: nat)
  {
    a <= b + 1 && b <= a + 1
  }

  /** The finder-like stretch of seven modules. */
  function Stretch(): (s: seq<bool>)
    ensures |s| == 7
  {
    [true, false, true, true, true, false, true]
  }

  /** What a position can show: at least k neighbours of its colour, the upper left corner of a square of one
      colour, the start of a finder-like stretch along its row or its column, a dark or a light module. */
  datatype Feature = Crowded(k: nat) | OneColour | AlongRow | AlongColumn | DarkModule | LightModule

  ghost predicate Has(x: Feature, g: Grid, r: nat, c: nat)
    requires IsSquare(g) && r < |g| && c < |g|
  {
    match x
    case Crowded(k) => |EqualNeighbours(g, r, c)| >= k
    case OneColour => r + 1 < |g| && c + 1 < |g| && g[r][c] == g[r + 1][c] == g[r][c + 1] == g[r + 1][c + 1]
    case AlongRow => c + 6 < |g| && forall k :: 0 <= k < 7 ==> g[r][c + k] == Stretch()[k]
    case AlongColumn => r + 6 < |g| && forall k :: 0 <= k < 7 ==> g[r + k][c] == Stretch()[k]
    case DarkModule => g[r][c]
    case LightModule => !g[r][c]
  }

  ghost function Found(x: Feature, g: Grid): (s: set<Position>)
    requires IsSquare(g)
  {
    set r: nat, c: nat | r < |g| && c < |g| && Has(x, g, r, c) :: (r, c)
  }

  /** Every module with more than five neighbours of its colour costs 3 and the excess over five (so 4 for the
      sixth neighbour and 1 for each further one), every square 3, every stretch 40, and the share of dark
      modules 10 for every five percent by which it misses one half: as a percentage of all modules, the
      difference between the numbers of dark and light ones. */
  ghost function PenaltyScore(g: Grid): (p: real)
    requires IsSquare(g) && |g| >= 21
  {
    (4 * |Found(Crowded(6), g)| + |Found(Crowded(7), g)| + |Found(Crowded(8), g)|
     + 3 * |Found(OneColour, g)| + 40 * |Found(AlongRow, g)| + 40 * |Found(AlongColumn, g)|) as real
    + 100.0 * Distance(|Found(DarkModule, g)|, |Found(LightModule, g)|) as real / (|g| * |g|) as real
  }

  function Distance(a: nat, b: nat): (d: nat)
  {
    if a >= b then a - b else b - a
  }

  // ---- transposing

  function Transposed(g: Grid): (t: Grid)
    requires IsSquare(g)
    ensures IsSquare(t) && |t| == |g|
    ensures forall r, c :: 0 <= r < |g| && 0 <= c < |g| ==> t[r][c] == g[c][r]
  {
    seq(|g|, r requires 0 <= r < |g| => seq(|g|, c requires 0 <= c < |g| => g[c][r]))
  }

  ghost function Swapped(s: set<Position>): (t: set<Position>)
  {
    set x | x in s :: (x.1, x.0)
  }

  lemma {:induction false} SwappedSize(s: set<Position>)
    ensures |Swapped(s)| == |s|
  {
    if s != {} {
      var x :| x in s;
      SwappedSize(s - {x});
      assert Swapped(s) == Swapped(s - {x}) + {(x.1, x.0)};
    }
  }

  function Turned(x: Feature): (y: Feature)
  {
    if x == AlongRow then AlongColumn else if x == AlongColumn then AlongRow else x
  }

  lemma NeighboursTransposed(g: Grid, r: nat, c: nat)
    requires IsSquare(g) && r < |g| && c < |g|
    ensures |EqualNeighbours(Transposed(g), r, c)| == |EqualNeighbours(g, c, r)|
  {
    var t, s := EqualNeighbours(Transposed(g), r, c), EqualNeighbours(g, c, r);
    assert t == Swapped(s) by {
      forall x: Position
        ensures x in t <==> x in Swapped(s)
      {
        assert x in Swapped(s) <==> (x.1, x.0) in s;
      }
    }
    SwappedSize(s);
  }

  lemma HasTransposed(x: Feature, g: Grid, r: nat, c: nat)
    requires IsSquare(g) && r < |g| && c < |g|
    ensures Has(x, Transposed(g), r, c) <==> Has(Turned(x), g, c, r)
  {
    NeighboursTransposed(g, r, c);
    hide EqualNeighbours;
  }

  lemma FoundTransposed(x: Feature, g: Grid)
    requires IsSquare(g)
    ensures |Found(x, Transposed(g))| == |Found(Turned(x), g)|
  {
    hide Has, Turned;
    var t, s := Found(x, Transposed(g)), Found(Turned(x), g);
    forall p: Position
      ensures p in t <==> p in Swapped(s)
    {
      assert p in Swapped(s) <==> (p.1, p.0) in s;
      if p.0 < |g| && p.1 < |g| {
        HasTransposed(x, g, p.0, p.1);
      }
    }
    assert t == Swapped(s);
    SwappedSize(s);
  }

  /** Rows and columns are penalised alike. */
  lemma PenaltyTransposed(g: Grid)
    requires IsSquare(g) && |g| >= 21
    ensures PenaltyScore(Transposed(g)) == PenaltyScore(g)
  {
    hide Found, Transposed;
    FoundTransposed(Crowded(6), g);
    FoundTransposed(Crowded(7), g);
    FoundTransposed(Crowded(8), g);
    FoundTransposed(OneColour, g);
    FoundTransposed(AlongRow, g);
    FoundTransposed(AlongColumn, g);
    FoundTransposed(DarkModule, g);
    FoundTransposed(LightModule, g);
  }
}
