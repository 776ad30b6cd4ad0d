/** Placing codeword bits on the data modules under a mask, and reading them back. */
module DataPlacement {
  import opened Gf2
  import opened Gf256
  import opened Bits
  import opened Blocks
  import opened Layout
  import opened ZigZag
  import opened MaskPictures
  import opened ReedSolomon
  import opened Results

  /** A module while the symbol is being built: not yet decided, or dark or light. */
  type Cell = Option<bool>

  /** A finished symbol: rows of dark (true) and light modules. */
  type Grid = seq<seq<bool>>

  predicate IsSquare(g: Grid)
  {
    forall r :: 0 <= r < |g| ==> |g[r]| == |g|
  }

  /** Bit i of the codewords, most significant bit first; beyond the last codeword it is 0. */
  function DataBit(data: seq<Slot>, i: nat): (b: bool)
  {
    i / 8 < |data| && BitOf(Val(data[i / 8]), 7 - i % 8)
  }

  function DataBits(data: seq<Slot>, from: nat, count: nat): (bits: seq<bool>)
    ensures |bits| == count
  {
    seq(count, i requires 0 <= i < count => DataBit(data, from + i))
  }

  lemma {:induction false} DataBitsAreBytes(data: seq<Slot>, i: nat)
    requires i < 8 * |data|
    ensures DataBit(data, i) == BytesToBits(Vals(data))[i]
    decreases |data|
  {
    hide NumBits, Shr;
    var bytes := Vals(data);
    assert bytes[1..] == Vals(data[1..]);
    if i < 8 {
      NumBitsAt(bytes[0], 8, i);
    } else {
      DataBitsAreBytes(data[1..], i - 8);
      assert data[1..][(i - 8) / 8] == data[i / 8];
    }
  }

  // ---- the reader, which takes the masks from their pictures

  function Read(g: Grid, maskPattern: nat, r: int, c: int): (b: bool)
    requires maskPattern < 8 && IsSquare(g) && 0 <= r < |g| && 0 <= c < |g|
  {
    g[r][c] != Inverts(maskPattern, r, c)
  }

  /** The unmasked data bits of the first k visits of pair p. */
  function ReadPair(g: Grid, typeNumber: nat, maskPattern: nat, p: nat, k: nat): (bits: seq<bool>)
    requires typeNumber >= 1 && |g| == ModuleCount(typeNumber) && IsSquare(g) && maskPattern < 8
    requires p < PairCount(|g|) && k <= 2 * |g|
  {
    if k == 0 then []
    else
      SideOf(typeNumber);
      CellOfVisit(|g|, p, k - 1);
      ReadPair(g, typeNumber, maskPattern, p, k - 1)
      + (if IsData(typeNumber, p, k - 1)
         then [Read(g, maskPattern, CellRow(|g|, p, k - 1), CellColumn(|g|, p, k - 1))] else [])
  }

  function ReadPairs(g: Grid, typeNumber: nat, maskPattern: nat, p: nat): (bits: seq<bool>)
    requires typeNumber >= 1 && |g| == ModuleCount(typeNumber) && IsSquare(g) && maskPattern < 8
    requires p <= PairCount(|g|)
  {
    if p == 0 then []
    else ReadPairs(g, typeNumber, maskPattern, p - 1) + ReadPair(g, typeNumber, maskPattern, p - 1, 2 * |g|)
  }

  /** Every data module shows the codeword bit of its rank, flipped by the mask. */
  ghost predicate ShowsData(g: Grid, typeNumber: nat, maskPattern: nat, data: seq<Slot>)
    requires typeNumber >= 1 && |g| == ModuleCount(typeNumber) && IsSquare(g) && maskPattern < 8
  {
    forall r, c :: 0 <= r < |g| && 0 <= c < |g| && !IsFunction(typeNumber, r, c) ==>
      PairOf(|g|, c) >= 0 && StepOf(|g|, r, c) >= 0
      && g[r][c] == (DataBit(data, Rank(typeNumber, PairOf(|g|, c), StepOf(|g|, r, c))) != Inverts(maskPattern, r, c))
  }

  lemma {:induction false} ReadPairBack(g: Grid, typeNumber: nat, maskPattern: nat, data: seq<Slot>, p: nat, k: nat)
    requires typeNumber >= 1 && |g| == ModuleCount(typeNumber) && IsSquare(g) && maskPattern < 8
    requires p < PairCount(|g|) && k <= 2 * |g|
    requires ShowsData(g, typeNumber, maskPattern, data)
    ensures ReadPair(g, typeNumber, maskPattern, p, k)
         == DataBits(data, DataBefore(typeNumber, p), DataInPair(typeNumber, p, k))
  {
    hide Inverts, IsFunction, DataBit, CellRow, CellColumn, PairOf, StepOf, DataBefore;
    if k > 0 {
      ReadPairBack(g, typeNumber, maskPattern, data, p, k - 1);
      SideOf(typeNumber);
      CellOfVisit(|g|, p, k - 1);
      var r, c := CellRow(|g|, p, k - 1), CellColumn(|g|, p, k - 1);
      if IsData(typeNumber, p, k - 1) {
        assert Read(g, maskPattern, r, c) == DataBit(data, Rank(typeNumber, p, k - 1));
      }
    }
  }

  lemma {:induction false} ReadPairsBack(g: Grid, typeNumber: nat, maskPattern: nat, data: seq<Slot>, p: nat)
    requires typeNumber >= 1 && |g| == ModuleCount(typeNumber) && IsSquare(g) && maskPattern < 8
    requires p <= PairCount(|g|)
    requires ShowsData(g, typeNumber, maskPattern, data)
    ensures ReadPairs(g, typeNumber, maskPattern, p) == DataBits(data, 0, DataBefore(typeNumber, p))
  {
    hide ShowsData, ReadPair, DataInPair, DataBit;
    if p > 0 {
      ReadPairsBack(g, typeNumber, maskPattern, data, p - 1);
      ReadPairBack(g, typeNumber, maskPattern, data, p - 1, 2 * |g|);
      DataBitsConcat(data, DataBefore(typeNumber, p - 1), DataInPair(typeNumber, p - 1, 2 * |g|));
    }
  }

  lemma DataBitsConcat(data: seq<Slot>, m: nat, k: nat)
    ensures DataBits(data, 0, m) + DataBits(data, m, k) == DataBits(data, 0, m + k)
  {
  }

  lemma {:induction false} PackConcat(bytes: seq<Byte>, rest: seq<bool>)
    ensures Pack(BytesToBits(bytes) + rest) == bytes + Pack(rest)
  {
    hide NumBits, Pack;
    if bytes == [] {
      assert BytesToBits(bytes) + rest == rest;
    } else {
      PackConcat(bytes[1..], rest);
      PackOne(bytes[0], BytesToBits(bytes[1..]) + rest);
      assert BytesToBits(bytes) + rest == ByteBits(bytes[0]) + (BytesToBits(bytes[1..]) + rest);
    }
  }

  lemma PackOne(b: Byte, tail: seq<bool>)
    ensures Pack(ByteBits(b) + tail) == [b] + Pack(tail)
  {
    hide ByteBits, PackByte;
    PackBackOne(b);
    var bits := ByteBits(b) + tail;
    assert bits[..8] == ByteBits(b) && bits[8..] == tail;
    if tail == [] {
      assert bits == ByteBits(b);
    }
  }

  lemma PackBackOne(b: Byte)
    ensures PackByte(ByteBits(b)) == b
  {
    assert Pow2(8) == 256;
    FromNumBits(b, 8);
  }

  /** Reading back in the same order with the same mask returns every codeword. */
  lemma ReadBack(g: Grid, typeNumber: nat, maskPattern: nat, data: seq<Slot>)
    returns (tail: seq<Byte>)
    requires typeNumber >= 1 && |g| == ModuleCount(typeNumber) && IsSquare(g) && maskPattern < 8
    requires ShowsData(g, typeNumber, maskPattern, data)
    requires DataTotal(typeNumber) >= 8 * |data|
    ensures Pack(ReadPairs(g, typeNumber, maskPattern, PairCount(|g|))) == Vals(data) + tail
  {
    hide ShowsData, Pack, BytesToBits, DataBits, ReadPairs;
    ReadPairsBack(g, typeNumber, maskPattern, data, PairCount(|g|));
    var rest := DataBitsSplit(data, DataTotal(typeNumber));
    PackConcat(Vals(data), rest);
    tail := Pack(rest);
  }

  /** The first bits are those of the codewords. */
  lemma DataBitsSplit(data: seq<Slot>, count: nat) returns (rest: seq<bool>)
    requires count >= 8 * |data|
    ensures DataBits(data, 0, count) == BytesToBits(Vals(data)) + rest
  {
    hide BytesToBits, DataBit;
    rest := DataBits(data, 0, count)[8 * |data|..];
    forall i | 0 <= i < 8 * |data|
      ensures DataBits(data, 0, count)[i] == BytesToBits(Vals(data))[i]
    {
      DataBitsAreBytes(data, i);
    }
  }
}
