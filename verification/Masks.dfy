/** The mask formulas draw those pictures. */
module Masks {
  import opened MaskPictures

  /** The eight mask patterns. */
  function GetMask(maskPattern: nat, i: nat, j: nat): (flip: bool)
    requires maskPattern < 8
  {
    match maskPattern
    case 0 => (i + j) % 2 == 0
    case 1 => i % 2 == 0
    case 2 => j % 3 == 0
    case 3 => (i + j) % 3 == 0
    case 4 => (i / 2 + j / 3) % 2 == 0
    case 5 => i * j % 2 + i * j % 3 == 0
    case 6 => (i * j % 2 + i * j % 3) % 2 == 0
    case _ => (i * j % 3 + (i + j) % 2) % 2 == 0
  }

  /** The formulas in terms of remainders alone: of row and column by 2, by 3, and whether the row lies in an
      odd pair and the column in an odd triple. */
  function Flip(maskPattern: nat, r2: nat, r3: nat, r4: nat, c2: nat, c3: nat, c6: nat): (flip: bool)
    requires maskPattern < 8
  {
    match maskPattern
    case 0 => r2 == c2
    case 1 => r2 == 0
    case 2 => c3 == 0
    case 3 => r3 + c3 == 0 || r3 + c3 == 3
    case 4 => r4 == c6
    case 5 => (r2 == 0 || c2 == 0) && (r3 == 0 || c3 == 0)
    case 6 => (r2 == 1 && c2 == 1) == (r3 != 0 && r3 == c3)
    case _ => (r2 == c2) == (r3 == 0 || c3 == 0 || r3 != c3)
  }

  function Residual(maskPattern: nat, i: nat, j: nat): (flip: bool)
    requires maskPattern < 8
  {
    Flip(maskPattern, i % 2, i % 3, i % 4 / 2, j % 2, j % 3, j % 6 / 3)
  }

  lemma ProductMod2(i: nat, j: nat)
    ensures i * j % 2 == (if i % 2 == 1 && j % 2 == 1 then 1 else 0)
  {
    var a, b, r, s := i / 2, j / 2, i % 2, j % 2;
    ProductMod(2, a, b, r, s);
    assert r * s < 2;
  }

  lemma ProductMod3(i: nat, j: nat)
    ensures i * j % 3 == (if i % 3 == 0 || j % 3 == 0 then 0 else if i % 3 == j % 3 then 1 else 2)
  {
    var a, b, r, s := i / 3, j / 3, i % 3, j % 3;
    ProductMod(3, a, b, r, s);
  }

  lemma ProductMod(m: nat, a: nat, b: nat, r: nat, s: nat)
    requires m > 0
    ensures (m * a + r) * (m * b + s) % m == r * s % m
  {
    var q := m * (a * b) + a * s + r * b;
    assert (m * a + r) * (m * b + s) == m * q + r * s;
    RemainderOf(m, q, r * s);
  }

  lemma RemainderOf(m: nat, q: nat, x: nat)
    requires m > 0
    ensures (m * q + x) % m == x % m
  {
    var y := m * q + x;
    var d := y / m - q - x / m;
    assert y == m * (y / m) + y % m;
    assert x == m * (x / m) + x % m;
    assert m * d == x % m - y % m;
  }

  lemma SumMod2(i: nat, j: nat)
    ensures (i + j) % 2 == if i % 2 == j % 2 then 0 else 1
  {
    RemainderOf(2, i / 2 + j / 2, i % 2 + j % 2);
  }

  lemma SumMod3(i: nat, j: nat)
    ensures (i + j) % 3 == 0 <==> i % 3 + j % 3 == 0 || i % 3 + j % 3 == 3
  {
    RemainderOf(3, i / 3 + j / 3, i % 3 + j % 3);
  }

  lemma Halves(i: nat)
    ensures i / 2 % 2 == i % 4 / 2
  {
    var q, r := i / 4, i % 4;
    assert i / 2 == 2 * q + r / 2;
    RemainderOf(2, q, r / 2);
  }

  lemma Thirds(j: nat)
    ensures j / 3 % 2 == j % 6 / 3
  {
    var q, r := j / 6, j % 6;
    assert j / 3 == 2 * q + r / 3;
    RemainderOf(2, q, r / 3);
  }

  lemma SumsByRemainders(maskPattern: nat, i: nat, j: nat)
    requires maskPattern < 5
    ensures GetMask(maskPattern, i, j) == Residual(maskPattern, i, j)
  {
    SumMod2(i, j);
    SumMod3(i, j);
    Halves(i);
    Thirds(j);
    SumMod2(i / 2, j / 3);
  }

  lemma MaskByRemainders(maskPattern: nat, i: nat, j: nat)
    requires maskPattern < 8
    ensures GetMask(maskPattern, i, j) == Residual(maskPattern, i, j)
  {
    if maskPattern < 5 {
      SumsByRemainders(maskPattern, i, j);
    } else {
      ProductMod2(i, j);
      ProductMod3(i, j);
      SumMod2(i, j);
    }
  }

  lemma Remainders(i: nat)
    ensures i % 12 % 2 == i % 2 && i % 12 % 3 == i % 3 && i % 12 % 4 == i % 4 && i % 12 % 6 == i % 6
  {
    var q, r := i / 12, i % 12;
    RemainderOf(2, 6 * q, r);
    RemainderOf(3, 4 * q, r);
    RemainderOf(4, 3 * q, r);
    RemainderOf(6, 2 * q, r);
  }

  lemma ResidualRepeats(maskPattern: nat, i: nat, j: nat)
    requires maskPattern < 8
    ensures Residual(maskPattern, i, j) == Residual(maskPattern, i % 12, j % 12)
  {
    Remainders(i);
    Remainders(j);
  }

  /** A row of twelve modules, given the remainders of the row. */
  function FlipRow(p: nat, x: nat, y: nat, z: nat): (row: seq<bool>)
    requires p < 8
  {
    [Flip(p, x, y, z, 0, 0, 0), Flip(p, x, y, z, 1, 1, 0), Flip(p, x, y, z, 0, 2, 0),
     Flip(p, x, y, z, 1, 0, 1), Flip(p, x, y, z, 0, 1, 1), Flip(p, x, y, z, 1, 2, 1),
     Flip(p, x, y, z, 0, 0, 0), Flip(p, x, y, z, 1, 1, 0), Flip(p, x, y, z, 0, 2, 0),
     Flip(p, x, y, z, 1, 0, 1), Flip(p, x, y, z, 0, 1, 1), Flip(p, x, y, z, 1, 2, 1)]
  }

  function Dark(s: string): (row: seq<bool>)
    requires |s| == 12
  {
    [s[0] == '#', s[1] == '#', s[2] == '#', s[3] == '#', s[4] == '#', s[5] == '#',
     s[6] == '#', s[7] == '#', s[8] == '#', s[9] == '#', s[10] == '#', s[11] == '#']
  }

  /** The twelve rows of the picture are those of the formula. */
  ghost predicate Draws(p: nat)
    requires p < 8
  {
    hide FlipRow, Dark, Picture;
    && FlipRow(p, 0, 0, 0) == Dark(Picture(p, 0))
    && FlipRow(p, 1, 1, 0) == Dark(Picture(p, 1))
    && FlipRow(p, 0, 2, 1) == Dark(Picture(p, 2))
    && FlipRow(p, 1, 0, 1) == Dark(Picture(p, 3))
    && FlipRow(p, 0, 1, 0) == Dark(Picture(p, 4))
    && FlipRow(p, 1, 2, 0) == Dark(Picture(p, 5))
    && FlipRow(p, 0, 0, 1) == Dark(Picture(p, 6))
    && FlipRow(p, 1, 1, 1) == Dark(Picture(p, 7))
    && FlipRow(p, 0, 2, 0) == Dark(Picture(p, 8))
    && FlipRow(p, 1, 0, 0) == Dark(Picture(p, 9))
    && FlipRow(p, 0, 1, 1) == Dark(Picture(p, 10))
    && FlipRow(p, 1, 2, 1) == Dark(Picture(p, 11))
  }

  lemma Draws000()
    ensures Draws(0)
  {
  }

  lemma Draws001()
    ensures Draws(1)
  {
  }

  lemma Draws010()
    ensures Draws(2)
  {
  }

  lemma Draws011()
    ensures Draws(3)
  {
  }

  lemma Draws100()
    ensures Draws(4)
  {
  }

  lemma Draws101()
    ensures Draws(5)
  {
  }

  lemma Draws110()
    ensures Draws(6)
  {
  }

  lemma Draws111()
    ensures Draws(7)
  {
  }

  lemma AllDraw(p: nat)
    requires p < 8
    ensures Draws(p)
  {
    hide Draws;
    match p
    case 0 => Draws000();
    case 1 => Draws001();
    case 2 => Draws010();
    case 3 => Draws011();
    case 4 => Draws100();
    case 5 => Draws101();
    case 6 => Draws110();
    case _ => Draws111();
  }

  lemma InRow(p: nat, x: nat, y: nat, z: nat, j: nat)
    requires p < 8 && j < 12
    ensures FlipRow(p, x, y, z)[j] == Flip(p, x, y, z, j % 2, j % 3, j % 6 / 3)
  {
    hide Flip;
    match j
    case 0 => assert j % 2 == 0 && j % 3 == 0 && j % 6 / 3 == 0;
    case 1 => assert j % 2 == 1 && j % 3 == 1 && j % 6 / 3 == 0;
    case 2 => assert j % 2 == 0 && j % 3 == 2 && j % 6 / 3 == 0;
    case 3 => assert j % 2 == 1 && j % 3 == 0 && j % 6 / 3 == 1;
    case 4 => assert j % 2 == 0 && j % 3 == 1 && j % 6 / 3 == 1;
    case 5 => assert j % 2 == 1 && j % 3 == 2 && j % 6 / 3 == 1;
    case 6 => assert j % 2 == 0 && j % 3 == 0 && j % 6 / 3 == 0;
    case 7 => assert j % 2 == 1 && j % 3 == 1 && j % 6 / 3 == 0;
    case 8 => assert j % 2 == 0 && j % 3 == 2 && j % 6 / 3 == 0;
    case 9 => assert j % 2 == 1 && j % 3 == 0 && j % 6 / 3 == 1;
    case 10 => assert j % 2 == 0 && j % 3 == 1 && j % 6 / 3 == 1;
    case _ => assert j % 2 == 1 && j % 3 == 2 && j % 6 / 3 == 1;
  }

  lemma RowDrawn(p: nat, i: nat)
    requires p < 8 && i < 12 && Draws(p)
    ensures FlipRow(p, i % 2, i % 3, i % 4 / 2) == Dark(Picture(p, i))
  {
    hide FlipRow, Dark, Picture;
    match i
    case 0 => assert i % 2 == 0 && i % 3 == 0 && i % 4 / 2 == 0;
    case 1 => assert i % 2 == 1 && i % 3 == 1 && i % 4 / 2 == 0;
    case 2 => assert i % 2 == 0 && i % 3 == 2 && i % 4 / 2 == 1;
    case 3 => assert i % 2 == 1 && i % 3 == 0 && i % 4 / 2 == 1;
    case 4 => assert i % 2 == 0 && i % 3 == 1 && i % 4 / 2 == 0;
    case 5 => assert i % 2 == 1 && i % 3 == 2 && i % 4 / 2 == 0;
    case 6 => assert i % 2 == 0 && i % 3 == 0 && i % 4 / 2 == 1;
    case 7 => assert i % 2 == 1 && i % 3 == 1 && i % 4 / 2 == 1;
    case 8 => assert i % 2 == 0 && i % 3 == 2 && i % 4 / 2 == 0;
    case 9 => assert i % 2 == 1 && i % 3 == 0 && i % 4 / 2 == 0;
    case 10 => assert i % 2 == 0 && i % 3 == 1 && i % 4 / 2 == 1;
    case _ => assert i % 2 == 1 && i % 3 == 2 && i % 4 / 2 == 1;
  }

  lemma InDark(s: string, j: nat)
    requires |s| == 12 && j < 12
    ensures Dark(s)[j] == (s[j] == '#')
  {
  }

  /** Every formula inverts exactly the modules its picture marks. */
  lemma MaskIsPicture(maskPattern: nat, i: nat, j: nat)
    requires maskPattern < 8
    ensures GetMask(maskPattern, i, j) == Inverts(maskPattern, i, j)
  {
    hide GetMask, Flip, FlipRow, Dark, Picture;
    MaskByRemainders(maskPattern, i, j);
    ResidualRepeats(maskPattern, i, j);
    var r := i % 12;
    AllDraw(maskPattern);
    RowDrawn(maskPattern, r);
    InRow(maskPattern, r % 2, r % 3, r % 4 / 2, j % 12);
    InDark(Picture(maskPattern, i % 12), j % 12);
  }
}
