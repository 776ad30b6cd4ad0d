/** `createData`: segments, padding, and codewords for a given version and level. */
module DataStream {
  import opened Gf256
  import opened Bits
  import opened BitBuffer
  import opened EightBitByte
  import opened Segments
  import opened Blocks
  import opened Tables
  import opened ReedSolomon
  import opened Codewords
  import opened Results

  function Payloads(dataList: seq<QR8bitByte>): (r: seq<seq<Byte>>)
    ensures |r| == |dataList|
  {
    seq(|dataList|, i requires 0 <= i < |dataList| => dataList[i].parsedData)
  }

  /** `addData` only ever makes 8-bit-byte entries. */
  ghost predicate ByteEntries(dataList: seq<QR8bitByte>)
  {
    forall d :: d in dataList ==> d.mode == MODE_8BIT_BYTE
  }

  function DataCapacity(typeNumber: nat, level: nat): (bits: nat)
  {
    8 * DataOf(BlocksOf(typeNumber, level))
  }

  /** The segments fit the version at the level. */
  predicate Fits(dataList: seq<QR8bitByte>, typeNumber: nat, level: nat)
  {
    |StreamBits(Payloads(dataList), typeNumber)| <= DataCapacity(typeNumber, level)
  }

  method WriteSegments(buffer: QRBitBuffer, dataList: seq<QR8bitByte>, typeNumber: nat)
    requires buffer.Valid() && ByteEntries(dataList) && buffer.Contents == []
    modifies buffer
    ensures buffer.Valid() && buffer.Contents == StreamBits(Payloads(dataList), typeNumber)
  {
    hide NumBits, BytesToBits, StreamBits, Pack;
    EmptyStream(typeNumber);
    for i := 0 to |dataList|
      invariant buffer.Valid()
      invariant buffer.Contents == StreamBits(Payloads(dataList)[..i], typeNumber)
    {
      var data := dataList[i];
      assert data in dataList;
      buffer.Put(data.mode, 4);
      buffer.Put(data.GetLength(), LengthBits(typeNumber));
      data.Write(buffer);
      StreamSnoc(Payloads(dataList)[..i], data.parsedData, typeNumber);
      assert Payloads(dataList)[..i + 1] == Payloads(dataList)[..i] + [data.parsedData];
    }
    assert Payloads(dataList)[..|dataList|] == Payloads(dataList);
  }

  lemma EmptyStream(typeNumber: nat)
    ensures StreamBits([], typeNumber) == []
  {
  }

  /** Terminator and alignment. */
  method PutTerminator(buffer: QRBitBuffer, capacity: nat)
    requires buffer.Valid()
    modifies buffer
    ensures buffer.Valid() && buffer.Contents == Terminate(old(buffer.Contents), capacity)
  {
    hide NumBits, Pack;
    if buffer.length + 4 <= capacity {
      ZeroBits();
      buffer.Put(0, 4);
    }
    AlignToByte(buffer);
  }

  method AlignToByte(buffer: QRBitBuffer)
    requires buffer.Valid()
    modifies buffer
    ensures buffer.Valid()
    ensures buffer.Contents == old(buffer.Contents) + Falses((8 - old(|buffer.Contents|) % 8) % 8)
  {
    hide NumBits, Pack, Falses;
    ghost var t := buffer.Contents;
    ghost var missing := 0;
    NoFalses();
    while buffer.length % 8 != 0
      invariant buffer.Valid()
      invariant buffer.Contents == t + Falses(missing)
      invariant missing <= (8 - |t| % 8) % 8
      decreases 8 - missing
    {
      AlignStep(|t|, missing);
      buffer.PutBit(false);
      OneMoreFalse(missing);
      missing := missing + 1;
    }
    AlignStep(|t|, missing);
  }

  lemma AlignStep(n: nat, m: nat)
    requires m <= (8 - n % 8) % 8
    ensures (n + m) % 8 == 0 <==> m == (8 - n % 8) % 8
  {
    var r := n % 8;
    assert n == 8 * (n / 8) + r;
    assert (n + m) % 8 == (r + m) % 8;
  }

  lemma NoFalses()
    ensures Falses(0) == []
  {
  }

  lemma OneMoreFalse(n: nat)
    ensures Falses(n + 1) == Falses(n) + [false]
  {
  }

  lemma ZeroBits()
    ensures NumBits(0, 4) == Falses(4)
  {
    assert NumBits(0, 4) == [false, false, false, false];
  }

  /** Pad codewords up to the capacity. */
  method PutPadding(buffer: QRBitBuffer, capacity: nat)
    requires buffer.Valid()
    modifies buffer
    ensures buffer.Valid() && buffer.Contents == Fill(old(buffer.Contents), capacity, false)
  {
    hide NumBits, Pack;
    ghost var start := buffer.Contents;
    while true
      invariant buffer.Valid()
      invariant Fill(buffer.Contents, capacity, false) == Fill(start, capacity, false)
      decreases capacity - buffer.length
    {
      if buffer.length >= capacity {
        break;
      }
      buffer.Put(0xEC, 8);
      if buffer.length >= capacity {
        break;
      }
      buffer.Put(0x11, 8);
    }
  }

  method CreateData(qm: QRMath, typeNumber: nat, level: nat, dataList: seq<QR8bitByte>)
    returns (r: Result<seq<Slot>>)
    requires qm.Valid() && ByteEntries(dataList)
    ensures !Supported(typeNumber, level) ==> r == Failure(BadBlock)
    ensures Supported(typeNumber, level) ==>
      if Fits(dataList, typeNumber, level)
      then r.Success? && IsCreatedData(r.value, typeNumber, level, dataList)
      else r == Failure(CodeLengthOverflow)
  {
    hide QRMath.Valid, NumBits, Pack, Supported, FinalBits, IsCodewords, BlocksSound, RsBlockTable;
    var rsBlocks :- GetRSBlocks(typeNumber, level);
    BlocksFit(typeNumber, level);
    var totalDataCount := TotalDataCount(rsBlocks);
    var bytes :- FilledBuffer(dataList, typeNumber, totalDataCount);
    var words := CreateBytes(qm, bytes, rsBlocks);
    return Success(words);
  }

  /** The bit buffer of `createData`, or an overflow. */
  method FilledBuffer(dataList: seq<QR8bitByte>, typeNumber: nat, totalDataCount: nat) returns (r: Result<seq<Byte>>)
    requires ByteEntries(dataList)
    ensures if |StreamBits(Payloads(dataList), typeNumber)| > totalDataCount * 8
            then r == Failure(CodeLengthOverflow)
            else r == Success(Pack(FinalBits(Payloads(dataList), typeNumber, totalDataCount * 8)))
                 && |r.value| == totalDataCount
  {
    hide NumBits, Pack, FinalBits, StreamBits, Terminate, Fill;
    var buffer := new QRBitBuffer();
    WriteSegments(buffer, dataList, typeNumber);
    if buffer.length > totalDataCount * 8 {
      return Failure(CodeLengthOverflow);
    }
    PutTerminator(buffer, totalDataCount * 8);
    PutPadding(buffer, totalDataCount * 8);
    FinalBitsUnfold(Payloads(dataList), typeNumber, totalDataCount * 8);
    FinalBitsLength(Payloads(dataList), typeNumber, totalDataCount * 8);
    return Success(buffer.buffer);
  }

  lemma FinalBitsUnfold(payloads: seq<seq<Byte>>, typeNumber: nat, capacity: nat)
    ensures FinalBits(payloads, typeNumber, capacity)
         == Fill(Terminate(StreamBits(payloads, typeNumber), capacity), capacity, false)
  {
  }

  lemma FinalBitsLength(payloads: seq<seq<Byte>>, typeNumber: nat, capacity: nat)
    requires capacity % 8 == 0 && |StreamBits(payloads, typeNumber)| <= capacity
    ensures |FinalBits(payloads, typeNumber, capacity)| == capacity
    ensures |Pack(FinalBits(payloads, typeNumber, capacity))| == capacity / 8
  {
    FinalBitsShape(payloads, typeNumber, capacity);
  }

  /** The codewords of the padded stream, for the blocks of the version and level. */
  ghost predicate IsCreatedData(words: seq<Slot>, typeNumber: nat, level: nat, dataList: seq<QR8bitByte>)
  {
    var blocks := BlocksOf(typeNumber, level);
    && |words| == TotalOf(blocks)
    && IsCodewords(words, Pack(FinalBits(Payloads(dataList), typeNumber, DataCapacity(typeNumber, level))), blocks)
  }

  /** Decoding what `createData` returns yields every segment, whatever bits follow the codewords. */
  lemma CreatedDataDecodes(words: seq<Slot>, typeNumber: nat, level: nat, dataList: seq<QR8bitByte>, tail: seq<Byte>)
    requires Supported(typeNumber, level) && Fits(dataList, typeNumber, level)
    requires IsCreatedData(words, typeNumber, level, dataList)
    ensures DecodeWords(Vals(words) + tail, BlocksOf(typeNumber, level), typeNumber) == Some(Payloads(dataList))
  {
    hide Pack, FinalBits, Parse, BytesToBits, IsCodewords, StreamBits, BlocksSound, LengthsFit;
    BlocksFit(typeNumber, level);
    var payloads, capacity := Payloads(dataList), DataCapacity(typeNumber, level);
    FittingLengths(payloads, typeNumber, DataOf(BlocksOf(typeNumber, level)));
    FinalBitsParse(payloads, typeNumber, capacity);
    UnpackPack(FinalBits(payloads, typeNumber, capacity));
    DecodeCodewords(words, Pack(FinalBits(payloads, typeNumber, capacity)), BlocksOf(typeNumber, level), tail,
      typeNumber);
  }
}
