/** From segments to the codewords of a symbol, and back. */
module Codewords {
  import opened Gf256
  import opened Bits
  import opened Segments
  import opened Blocks
  import opened Interleaving
  import opened Tables
  import opened ReedSolomon
  import opened Results

  // ---- the decoder

  function DataLengths(blocks: seq<RSBlock>): (r: seq<nat>)
    ensures |r| == |blocks|
  {
    seq(|blocks|, i requires 0 <= i < |blocks| => blocks[i].dataCount)
  }

  function CheckLengths(blocks: seq<RSBlock>): (r: seq<nat>)
    ensures |r| == |blocks|
  {
    seq(|blocks|, i requires 0 <= i < |blocks| =>
      if blocks[i].totalCount > blocks[i].dataCount then blocks[i].totalCount - blocks[i].dataCount else 0)
  }

  function Flatten(rows: seq<seq<Byte>>): (r: seq<Byte>)
  {
    if rows == [] then [] else Flatten(rows[..|rows| - 1]) + rows[|rows| - 1]
  }

  /** Lengths add up and every position is inside the stream: what de-interleaving needs. */
  ghost predicate Splits(stream: seq<Byte>, lens: seq<nat>)
  {
    forall i, r :: 0 <= r < |lens| && 0 <= i < lens[r] ==> Position(lens, i, r) < |stream|
  }

  /** The reference decoder for codewords: de-interleave, reject any block that is not a word of the
      Reed-Solomon code, and parse the data bits. */
  ghost function DecodeWords(words: seq<Byte>, blocks: seq<RSBlock>, typeNumber: nat): (r: Option<seq<seq<Byte>>>)
  {
    var dataLens, checkLens := DataLengths(blocks), CheckLengths(blocks);
    var n := SumOf(dataLens);
    if |words| < n || !Splits(words, dataLens) || !Splits(words[n..], checkLens) then None
    else
      var dc := Deinterleave(words, dataLens);
      var ec := Deinterleave(words[n..], checkLens);
      if exists i :: 0 <= i < |blocks| && !IsReedSolomonWord(dc[i] + ec[i], checkLens[i]) then None
      else Parse(BytesToBits(Flatten(dc)), typeNumber)
  }

  // ---- createBytes

  /** The blocks cut from the data bytes, with their check codewords. */
  ghost predicate Coded(bytes: seq<Byte>, blocks: seq<RSBlock>, dc: seq<seq<Slot>>, ec: seq<seq<Slot>>)
  {
    && |dc| == |ec| == |blocks|
    && (forall r :: 0 <= r < |blocks| ==> |dc[r]| == blocks[r].dataCount)
    && (forall r :: 0 <= r < |blocks| ==> |ec[r]| == CheckLengths(blocks)[r])
    && (forall r :: 0 <= r < |blocks| ==> IsReedSolomonWord(Vals(dc[r]) + Vals(ec[r]), |ec[r]|))
    && Flatten(ValsOf(dc)) == bytes
  }

  ghost function ValsOf(rows: seq<seq<Slot>>): (r: seq<seq<Byte>>)
    ensures |r| == |rows|
  {
    seq(|rows|, i requires 0 <= i < |rows| => Vals(rows[i]))
  }

  /** The codewords of a symbol: all data codewords interleaved, then all check codewords. */
  ghost predicate IsCodewords(words: seq<Slot>, bytes: seq<Byte>, blocks: seq<RSBlock>)
  {
    exists dc: seq<seq<Slot>>, ec: seq<seq<Slot>>, maxDc: nat, maxEc: nat ::
      && Coded(bytes, blocks, dc, ec)
      && (forall r :: 0 <= r < |blocks| ==> |dc[r]| <= maxDc && |ec[r]| <= maxEc)
      && words == Interleave(dc, maxDc) + Interleave(ec, maxEc)
  }

  lemma {:induction false} ValsRow(rows: seq<seq<Slot>>, i: nat, r: nat)
    requires r <= |rows|
    ensures Vals(Row(rows, i, r)) == Row(ValsOf(rows), i, r)
  {
    if r > 0 {
      ValsRow(rows, i, r - 1);
      ValsConcat(Row(rows, i, r - 1), if i < |rows[r - 1]| then [rows[r - 1][i]] else []);
    }
  }

  lemma NoVals(rows: seq<seq<Slot>>)
    ensures Vals(Interleave(rows, 0)) == Interleave(ValsOf(rows), 0)
  {
  }

  lemma {:induction false} ValsInterleave(rows: seq<seq<Slot>>, n: nat)
    ensures Vals(Interleave(rows, n)) == Interleave(ValsOf(rows), n)
  {
    hide Vals, Row, ValsOf, Interleave;
    if n == 0 {
      NoVals(rows);
    } else {
      InterleaveNext(rows, n);
      InterleaveNext(ValsOf(rows), n);
      ValsInterleave(rows, n - 1);
      ValsRow(rows, n - 1, |rows|);
      ValsConcat(Interleave(rows, n - 1), Row(rows, n - 1, |rows|));
    }
  }

  /** The decoder applied to interleaved blocks that are words of the code. */
  lemma DecodeBlocks(d: seq<seq<Byte>>, e: seq<seq<Byte>>, maxDc: nat, maxEc: nat, blocks: seq<RSBlock>,
                     tail: seq<Byte>, typeNumber: nat)
    requires |d| == |e| == |blocks| && Lengths(d) == DataLengths(blocks) && Lengths(e) == CheckLengths(blocks)
    requires forall r :: 0 <= r < |blocks| ==> |d[r]| <= maxDc && |e[r]| <= maxEc
    requires forall r :: 0 <= r < |blocks| ==> IsReedSolomonWord(d[r] + e[r], |e[r]|)
    ensures DecodeWords(Interleave(d, maxDc) + (Interleave(e, maxEc) + tail), blocks, typeNumber)
         == Parse(BytesToBits(Flatten(d)), typeNumber)
  {
    hide Interleave, Flatten, Parse, BytesToBits, IsReedSolomonWord, Deinterleave;
    var dStream, eStream := Interleave(d, maxDc), Interleave(e, maxEc);
    DeinterleaveInverts(d, maxDc, eStream + tail);
    DeinterleaveInverts(e, maxEc, tail);
    var all := dStream + (eStream + tail);
    assert all[|dStream|..] == eStream + tail;
  }

  /** Decoding undoes the block structure: what is parsed are exactly the data bytes. */
  lemma DecodeCodewords(words: seq<Slot>, bytes: seq<Byte>, blocks: seq<RSBlock>, tail: seq<Byte>, typeNumber: nat)
    requires IsCodewords(words, bytes, blocks)
    ensures DecodeWords(Vals(words) + tail, blocks, typeNumber) == Parse(BytesToBits(bytes), typeNumber)
  {
    hide Interleave, Flatten, Parse, BytesToBits, Vals, IsReedSolomonWord, DecodeWords;
    var dc: seq<seq<Slot>>, ec: seq<seq<Slot>>, maxDc: nat, maxEc: nat :|
      && Coded(bytes, blocks, dc, ec)
      && (forall r :: 0 <= r < |blocks| ==> |dc[r]| <= maxDc && |ec[r]| <= maxEc)
      && words == Interleave(dc, maxDc) + Interleave(ec, maxEc);
    var d, e := ValsOf(dc), ValsOf(ec);
    ValsInterleave(dc, maxDc);
    ValsInterleave(ec, maxEc);
    ValsConcat(Interleave(dc, maxDc), Interleave(ec, maxEc));
    assert Lengths(d) == DataLengths(blocks) && Lengths(e) == CheckLengths(blocks);
    DecodeBlocks(d, e, maxDc, maxEc, blocks, tail, typeNumber);
    assert Vals(words) + tail == Interleave(d, maxDc) + (Interleave(e, maxEc) + tail);
  }

  lemma CodedSnoc(bytes: seq<Byte>, blocks: seq<RSBlock>, dc: seq<seq<Slot>>, ec: seq<seq<Slot>>,
                  b: RSBlock, part: seq<Byte>, d: seq<Slot>, e: seq<Slot>)
    requires Coded(bytes, blocks, dc, ec)
    requires |d| == b.dataCount && |e| == b.totalCount - b.dataCount && Vals(d) == part
    requires IsReedSolomonWord(Vals(d) + Vals(e), |e|)
    ensures Coded(bytes + part, blocks + [b], dc + [d], ec + [e])
  {
    hide Vals, IsReedSolomonWord;
    var rows := ValsOf(dc + [d]);
    assert rows[..|rows| - 1] == ValsOf(dc);
    assert rows[|rows| - 1] == part;
    forall r | 0 <= r < |blocks| + 1
      ensures IsReedSolomonWord(Vals((dc + [d])[r]) + Vals((ec + [e])[r]), |(ec + [e])[r]|)
      ensures |(ec + [e])[r]| == CheckLengths(blocks + [b])[r]
      ensures |(dc + [d])[r]| == (blocks + [b])[r].dataCount
    {
      if r < |blocks| {
        assert (dc + [d])[r] == dc[r] && (ec + [e])[r] == ec[r];
        assert CheckLengths(blocks + [b])[r] == CheckLengths(blocks)[r];
      }
    }
  }

  method CopyBlock(buffer: seq<Byte>, offset: nat, dcCount: nat) returns (dc: seq<Slot>)
    requires offset + dcCount <= |buffer|
    ensures AllSet(dc) && Vals(dc) == buffer[offset..offset + dcCount]
  {
    var block := new Slot[dcCount](_ => UNSET);
    for i := 0 to dcCount
      invariant forall k :: 0 <= k < i ==> block[k] == buffer[k + offset]
    {
      block[i] := buffer[i + offset];
    }
    dc := block[..];
  }

  lemma {:induction false} DataLengthsSum(blocks: seq<RSBlock>)
    ensures SumOf(DataLengths(blocks)) == DataOf(blocks)
    decreases |blocks|
  {
    if blocks != [] {
      var init := blocks[..|blocks| - 1];
      DataLengthsSum(init);
      assert DataLengths(blocks)[..|blocks| - 1] == DataLengths(init);
    }
  }

  lemma {:induction false} CheckLengthsSum(blocks: seq<RSBlock>)
    requires BlocksSound(blocks)
    ensures DataOf(blocks) + SumOf(CheckLengths(blocks)) == TotalOf(blocks)
    decreases |blocks|
  {
    if blocks != [] {
      var init := blocks[..|blocks| - 1];
      CheckLengthsSum(init);
      assert CheckLengths(blocks)[..|blocks| - 1] == CheckLengths(init);
      assert blocks[|blocks| - 1] in blocks;
    }
  }

  /** The two interleaved parts fill the symbol's codewords exactly. */
  lemma PartsLengths(blocks: seq<RSBlock>, dc: seq<seq<Slot>>, ec: seq<seq<Slot>>, maxDc: nat, maxEc: nat,
                     bytes: seq<Byte>)
    requires BlocksSound(blocks) && Coded(bytes, blocks, dc, ec)
    requires forall r :: 0 <= r < |blocks| ==> |dc[r]| <= maxDc && |ec[r]| <= maxEc
    ensures |Interleave(dc, maxDc)| == DataOf(blocks)
    ensures |Interleave(ec, maxEc)| == TotalOf(blocks) - DataOf(blocks)
  {
    hide Interleave, Deinterleave, IsReedSolomonWord, Vals;
    DeinterleaveInverts(dc, maxDc, []);
    DeinterleaveInverts(ec, maxEc, []);
    assert Lengths(dc) == DataLengths(blocks);
    assert Lengths(ec) == CheckLengths(blocks);
    DataLengthsSum(blocks);
    CheckLengthsSum(blocks);
  }

  method MaxOf(a: nat, b: nat) returns (m: nat)
    ensures m >= a && m >= b && (m == a || m == b)
  {
    m := if a >= b then a else b;
  }

  /** Cut the data into blocks and compute the check codewords of each. */
  method CodeBlocks(qm: QRMath, buffer: seq<Byte>, rsBlocks: seq<RSBlock>)
    returns (dcdata: seq<seq<Slot>>, ecdata: seq<seq<Slot>>, maxDcCount: nat, maxEcCount: nat)
    requires qm.Valid() && BlocksSound(rsBlocks) && |buffer| == DataOf(rsBlocks)
    ensures Coded(buffer, rsBlocks, dcdata, ecdata)
    ensures forall r :: 0 <= r < |rsBlocks| ==> |dcdata[r]| <= maxDcCount && |ecdata[r]| <= maxEcCount
  {
    hide QRMath.Valid, Coded, Vals, IsReedSolomonWord, DataOf, AllSet;
    var offset := 0;
    dcdata, ecdata, maxDcCount, maxEcCount := [], [], 0, 0;
    NothingCoded();
    for r := 0 to |rsBlocks|
      invariant qm.Valid()
      invariant offset == DataOf(rsBlocks[..r]) && offset <= |buffer|
      invariant |dcdata| == |ecdata| == r
      invariant Coded(buffer[..offset], rsBlocks[..r], dcdata, ecdata)
      invariant forall k :: 0 <= k < r ==> |dcdata[k]| <= maxDcCount && |ecdata[k]| <= maxEcCount
    {
      var block := rsBlocks[r];
      assert block in rsBlocks;
      var dcCount := block.dataCount;
      var ecCount := block.totalCount - dcCount;
      DataOfPrefix(rsBlocks, r);
      maxDcCount := MaxOf(maxDcCount, dcCount);
      maxEcCount := MaxOf(maxEcCount, ecCount);
      var dc := CopyBlock(buffer, offset, dcCount);
      assert |Vals(dc)| == dcCount;
      var ec := CheckCodewords(qm, dc, ecCount);
      CodedSnoc(buffer[..offset], rsBlocks[..r], dcdata, ecdata, block,
                buffer[offset..offset + dcCount], dc, ec.value);
      assert buffer[..offset] + buffer[offset..offset + dcCount] == buffer[..offset + dcCount];
      assert rsBlocks[..r] + [block] == rsBlocks[..r + 1];
      dcdata := dcdata + [dc];
      ecdata := ecdata + [ec.value];
      offset := offset + dcCount;
    }
    assert rsBlocks[..|rsBlocks|] == rsBlocks;
    assert buffer[..offset] == buffer;
  }

  lemma NothingCoded()
    ensures Coded([], [], [], []) && DataOf([]) == 0
  {
    assert ValsOf([]) == [];
  }

  lemma {:induction false} DataOfPrefix(blocks: seq<RSBlock>, r: nat)
    requires r < |blocks|
    ensures DataOf(blocks[..r + 1]) == DataOf(blocks[..r]) + blocks[r].dataCount <= DataOf(blocks)
    decreases |blocks| - r
  {
    assert blocks[..r + 1][..r] == blocks[..r];
    if r + 1 < |blocks| {
      DataOfPrefix(blocks, r + 1);
    } else {
      assert blocks[..r + 1] == blocks;
    }
  }

  method CreateBytes(qm: QRMath, buffer: seq<Byte>, rsBlocks: seq<RSBlock>) returns (words: seq<Slot>)
    requires qm.Valid() && BlocksSound(rsBlocks) && |buffer| == DataOf(rsBlocks)
    ensures |words| == TotalOf(rsBlocks) && IsCodewords(words, buffer, rsBlocks)
  {
    hide QRMath.Valid, Coded, DataOf, TotalOf, Interleave;
    var dcdata, ecdata, maxDcCount, maxEcCount := CodeBlocks(qm, buffer, rsBlocks);
    PartsLengths(rsBlocks, dcdata, ecdata, maxDcCount, maxEcCount, buffer);
    var totalCodeCount := TotalCount(rsBlocks);
    var data := new Slot[totalCodeCount](_ => UNSET);
    var index := WriteRounds(data, 0, dcdata, maxDcCount);
    ghost var half := data[..];
    index := WriteRounds(data, index, ecdata, maxEcCount);
    words := data[..];
    assert words == Interleave(dcdata, maxDcCount) + Interleave(ecdata, maxEcCount);
  }

  method TotalCount(rsBlocks: seq<RSBlock>) returns (n: nat)
    ensures n == TotalOf(rsBlocks)
  {
    n := 0;
    for i := 0 to |rsBlocks|
      invariant n == TotalOf(rsBlocks[..i])
    {
      assert rsBlocks[..i + 1][..i] == rsBlocks[..i];
      n := n + rsBlocks[i].totalCount;
    }
    assert rsBlocks[..|rsBlocks|] == rsBlocks;
  }

  method TotalDataCount(rsBlocks: seq<RSBlock>) returns (n: nat)
    ensures n == DataOf(rsBlocks)
  {
    n := 0;
    for i := 0 to |rsBlocks|
      invariant n == DataOf(rsBlocks[..i])
    {
      assert rsBlocks[..i + 1][..i] == rsBlocks[..i];
      n := n + rsBlocks[i].dataCount;
    }
    assert rsBlocks[..|rsBlocks|] == rsBlocks;
  }
}
