/** The mask patterns of section 7.8.2 of ISO/IEC 18004 as pictures, independent of the formulas: each one
    repeats every 12 rows and every 12 columns, and `#` marks the modules it inverts. */
module MaskPictures {
  function Picture000(row: nat): (s: string)
    requires row < 12
    ensures |s| == 12
  {
    match row
    case 0 => "#.#.#.#.#.#."
    case 1 => ".#.#.#.#.#.#"
    case 2 => "#.#.#.#.#.#."
    case 3 => ".#.#.#.#.#.#"
    case 4 => "#.#.#.#.#.#."
    case 5 => ".#.#.#.#.#.#"
    case 6 => "#.#.#.#.#.#."
    case 7 => ".#.#.#.#.#.#"
    case 8 => "#.#.#.#.#.#."
    case 9 => ".#.#.#.#.#.#"
    case 10 => "#.#.#.#.#.#."
    case _ => ".#.#.#.#.#.#"
  }

  function Picture001(row: nat): (s: string)
    requires row < 12
    ensures |s| == 12
  {
    match row
    case 0 => "############"
    case 1 => "............"
    case 2 => "############"
    case 3 => "............"
    case 4 => "############"
    case 5 => "............"
    case 6 => "############"
    case 7 => "............"
    case 8 => "############"
    case 9 => "............"
    case 10 => "############"
    case _ => "............"
  }

  function Picture010(row: nat): (s: string)
    requires row < 12
    ensures |s| == 12
  {
    match row
    case 0 => "#..#..#..#.."
    case 1 => "#..#..#..#.."
    case 2 => "#..#..#..#.."
    case 3 => "#..#..#..#.."
    case 4 => "#..#..#..#.."
    case 5 => "#..#..#..#.."
    case 6 => "#..#..#..#.."
    case 7 => "#..#..#..#.."
    case 8 => "#..#..#..#.."
    case 9 => "#..#..#..#.."
    case 10 => "#..#..#..#.."
    case _ => "#..#..#..#.."
  }

  function Picture011(row: nat): (s: string)
    requires row < 12
    ensures |s| == 12
  {
    match row
    case 0 => "#..#..#..#.."
    case 1 => "..#..#..#..#"
    case 2 => ".#..#..#..#."
    case 3 => "#..#..#..#.."
    case 4 => "..#..#..#..#"
    case 5 => ".#..#..#..#."
    case 6 => "#..#..#..#.."
    case 7 => "..#..#..#..#"
    case 8 => ".#..#..#..#."
    case 9 => "#..#..#..#.."
    case 10 => "..#..#..#..#"
    case _ => ".#..#..#..#."
  }

  function Picture100(row: nat): (s: string)
    requires row < 12
    ensures |s| == 12
  {
    match row
    case 0 => "###...###..."
    case 1 => "###...###..."
    case 2 => "...###...###"
    case 3 => "...###...###"
    case 4 => "###...###..."
    case 5 => "###...###..."
    case 6 => "...###...###"
    case 7 => "...###...###"
    case 8 => "###...###..."
    case 9 => "###...###..."
    case 10 => "...###...###"
    case _ => "...###...###"
  }

  function Picture101(row: nat): (s: string)
    requires row < 12
    ensures |s| == 12
  {
    match row
    case 0 => "############"
    case 1 => "#.....#....."
    case 2 => "#..#..#..#.."
    case 3 => "#.#.#.#.#.#."
    case 4 => "#..#..#..#.."
    case 5 => "#.....#....."
    case 6 => "############"
    case 7 => "#.....#....."
    case 8 => "#..#..#..#.."
    case 9 => "#.#.#.#.#.#."
    case 10 => "#..#..#..#.."
    case _ => "#.....#....."
  }

  function Picture110(row: nat): (s: string)
    requires row < 12
    ensures |s| == 12
  {
    match row
    case 0 => "############"
    case 1 => "###...###..."
    case 2 => "##.##.##.##."
    case 3 => "#.#.#.#.#.#."
    case 4 => "#.##.##.##.#"
    case 5 => "#...###...##"
    case 6 => "############"
    case 7 => "###...###..."
    case 8 => "##.##.##.##."
    case 9 => "#.#.#.#.#.#."
    case 10 => "#.##.##.##.#"
    case _ => "#...###...##"
  }

  function Picture111(row: nat): (s: string)
    requires row < 12
    ensures |s| == 12
  {
    match row
    case 0 => "#.#.#.#.#.#."
    case 1 => "...###...###"
    case 2 => "#...###...##"
    case 3 => ".#.#.#.#.#.#"
    case 4 => "###...###..."
    case 5 => ".###...###.."
    case 6 => "#.#.#.#.#.#."
    case 7 => "...###...###"
    case 8 => "#...###...##"
    case 9 => ".#.#.#.#.#.#"
    case 10 => "###...###..."
    case _ => ".###...###.."
  }

  function Picture(maskPattern: nat, row: nat): (s: string)
    requires maskPattern < 8 && row < 12
    ensures |s| == 12
  {
    match maskPattern
    case 0 => Picture000(row)
    case 1 => Picture001(row)
    case 2 => Picture010(row)
    case 3 => Picture011(row)
    case 4 => Picture100(row)
    case 5 => Picture101(row)
    case 6 => Picture110(row)
    case _ => Picture111(row)
  }

  /** Whether the drawn pattern inverts module (i, j). */
  predicate Inverts(maskPattern: nat, i: nat, j: nat)
    requires maskPattern < 8
  {
    Picture(maskPattern, i % 12)[j % 12] == '#'
  }
}
