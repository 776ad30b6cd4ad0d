/** Finders and alignment patterns as they are drawn in sections 6.3.3 and 6.3.6 of ISO/IEC 18004, `#` for dark. */
module PatternPictures {
  import opened Layout

  /** A finder in the upper left corner with its separator. */
  function FinderPicture(row: nat): (s: string)
    requires row < 8
    ensures |s| == 8
  {
    match row
    case 0 => "#######."
    case 1 => "#.....#."
    case 2 => "#.###.#."
    case 3 => "#.###.#."
    case 4 => "#.###.#."
    case 5 => "#.....#."
    case 6 => "#######."
    case _ => "........"
  }

  function AlignmentPicture(row: nat): (s: string)
    requires row < 5
    ensures |s| == 5
  {
    match row
    case 0 => "#####"
    case 1 => "#...#"
    case 2 => "#.#.#"
    case 3 => "#...#"
    case _ => "#####"
  }

  lemma FinderCorner(r: nat, c: nat)
    requires r < 8 && c < 8
    ensures FinderDark(Ring(3, 3, r, c)) == (FinderPicture(r)[c] == '#')
  {
  }

  /** Every finder is the picture, turned so that the separator lies inwards. */
  lemma FinderDrawn(n: nat, r: int, c: int)
    requires n >= 21 && 0 <= r < n && 0 <= c < n && InFinder(n, r, c)
    ensures FinderDark(FinderRing(n, r, c))
         == (FinderPicture(if r < 8 then r else n - 1 - r)[if c < 8 then c else n - 1 - c] == '#')
  {
    hide FinderPicture, FinderDark;
    FinderCorner(if r < 8 then r else n - 1 - r, if c < 8 then c else n - 1 - c);
  }

  lemma AlignmentAround(p: nat, q: nat, r: int, c: int)
    requires Near(p, r) && Near(q, c)
    ensures AlignmentDark(Ring(p, q, r, c)) == (AlignmentPicture(r - p + 2)[c - q + 2] == '#')
  {
  }

  /** Every alignment pattern is the picture around its centre. */
  lemma AlignmentDrawn(pos: seq<nat>, r: int, c: int)
    requires InAlignment(pos, r, c)
    ensures var p, q := pos[NearIndex(pos, r).value], pos[NearIndex(pos, c).value];
            Near(p, r) && Near(q, c)
            && AlignmentDark(AlignmentRing(pos, r, c)) == (AlignmentPicture(r - p + 2)[c - q + 2] == '#')
  {
    hide AlignmentPicture, AlignmentDark, Ring;
    AlignmentAround(pos[NearIndex(pos, r).value], pos[NearIndex(pos, c).value], r, c);
  }
}
