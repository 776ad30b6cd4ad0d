/** The QR code object: data list, cached codewords, module matrix, and the steps that make it. */
module QrCode {
  import opened Bch
  import opened BitBuffer
  import opened EightBitByte
  import opened Segments
  import opened Blocks
  import opened Tables
  import opened ReedSolomon
  import opened Codewords
  import opened DataStream
  import opened Layout
  import opened DataPlacement
  import opened Painting
  import opened Mapping
  import opened PenaltyRules
  import opened Penalty
  import opened Decoder
  import opened Results

  // ---- the function patterns together

  /** The value of every function module, nothing yet for data modules. */
  ghost function PatternCell(typeNumber: nat, format: nat, version: nat, test: bool, r: nat, c: nat): (x: Cell)
    requires typeNumber >= 1 && InSymbol(typeNumber, r, c)
  {
    if IsFunction(typeNumber, r, c) then Some(FunctionDark(typeNumber, format, version, test, r, c)) else None
  }

  /** The matrix after the three finders. */
  ghost predicate FindersDrawn(modules: array2<Cell>, typeNumber: nat)
    reads modules
  {
    && Square(modules, ModuleCount(typeNumber))
    && forall r, c :: 0 <= r < modules.Length0 && 0 <= c < modules.Length0 ==>
         modules[r, c] == if InFinder(modules.Length0, r, c)
                          then Some(FinderDark(FinderRing(modules.Length0, r, c))) else None
  }

  method DrawFinders(modules: array2<Cell>, typeNumber: nat)
    requires typeNumber >= 1 && Square(modules, ModuleCount(typeNumber))
    requires forall r, c :: 0 <= r < modules.Length0 && 0 <= c < modules.Length0 ==> modules[r, c] == None
    modifies modules
    ensures FindersDrawn(modules, typeNumber)
  {
    hide FinderDark, Ring;
    var n := modules.Length0;
    SetupPositionProbePattern(modules, 0, 0);
    SetupPositionProbePattern(modules, n - 7, 0);
    SetupPositionProbePattern(modules, 0, n - 7);
  }

  /** The matrix with all function patterns. */
  ghost predicate PatternsDrawn(modules: array2<Cell>, typeNumber: nat, format: nat, version: nat, test: bool)
    requires typeNumber >= 1
    reads modules
  {
    && Square(modules, ModuleCount(typeNumber))
    && forall r, c :: 0 <= r < modules.Length0 && 0 <= c < modules.Length0 ==>
         modules[r, c] == PatternCell(typeNumber, format, version, test, r, c)
  }

  /** What the setup steps leave in one module, in the order in which they run. */
  ghost function StepwiseCell(typeNumber: nat, format: nat, version: nat, test: bool, r: nat, c: nat): (x: Cell)
    requires typeNumber >= 1 && InSymbol(typeNumber, r, c)
  {
    var n, pos := ModuleCount(typeNumber), PatternPosition(typeNumber);
    var finder: Cell := if InFinder(n, r, c) then Some(FinderDark(FinderRing(n, r, c))) else None;
    var aligned: Cell := if InAlignment(pos, r, c) then Some(AlignmentDark(AlignmentRing(pos, r, c))) else finder;
    var timed: Cell := if InTiming(n, r, c) && aligned.None? then Some(TimingDark(r, c)) else aligned;
    var formatted: Cell := if InFormat(n, r, c) then Some(FormatDark(format, test, FormatIndex(n, r, c))) else timed;
    if InVersion(n, typeNumber, r, c) then Some(!test && BitOf(version, VersionIndex(n, typeNumber, r, c)))
      else formatted
  }

  /** No step overwrites another with a different value: the result of drawing in order is the
      order-free description of the patterns. */
  lemma StepsAgree(typeNumber: nat, format: nat, version: nat, test: bool, r: nat, c: nat)
    requires 1 <= typeNumber <= 40 && InSymbol(typeNumber, r, c)
    ensures StepwiseCell(typeNumber, format, version, test, r, c)
      == PatternCell(typeNumber, format, version, test, r, c)
  {
    hide InFinder, InAlignment, InTiming, InFormat, InVersion, PatternPosition, BitOf, AlignmentDark, FinderDark;
    OthersDisjoint(typeNumber, r, c);
    if InAlignment(PatternPosition(typeNumber), r, c) {
      AlignmentAvoidsOthers(typeNumber, r, c);
    }
  }

  method DrawPatterns(modules: array2<Cell>, typeNumber: nat, level: nat, test: bool, maskPattern: nat)
    returns (ghost format: nat, ghost version: nat)
    requires 1 <= typeNumber <= 40 && maskPattern < 8 && Square(modules, ModuleCount(typeNumber))
    requires forall r, c :: 0 <= r < modules.Length0 && 0 <= c < modules.Length0 ==> modules[r, c] == None
    modifies modules
    ensures IsFormatWord(format, level, maskPattern)
    ensures typeNumber >= 7 ==> IsCodeword(version, typeNumber, G18, 12)
    ensures PatternsDrawn(modules, typeNumber, format, version, test)
  {
    hide InFinder, InAlignment, InTiming, InFormat, InVersion, PatternPosition, BitOf, AlignmentDark, FinderDark,
      FinderRing, AlignmentRing, TimingDark, FormatDark, PatternCell, IsCodeword, FormatIndex, VersionIndex;
    DrawFinders(modules, typeNumber);
    SetupPositionAdjustPattern(modules, typeNumber);
    SetupTimingPattern(modules);
    format := SetupTypeInfo(modules, level, test, maskPattern);
    version := 0;
    if typeNumber >= 7 {
      version := SetupTypeNumber(modules, typeNumber, test);
    } else {
      NoVersion(typeNumber);
    }
    forall r, c | 0 <= r < modules.Length0 && 0 <= c < modules.Length0
      ensures modules[r, c] == PatternCell(typeNumber, format, version, test, r, c)
    {
      StepsAgree(typeNumber, format, version, test, r, c);
    }
  }

  lemma NoVersion(typeNumber: nat)
    requires typeNumber < 7
    ensures forall n, r, c :: !InVersion(n, typeNumber, r, c)
  {
  }

  // ---- the object

  /** What the symbol for a mask looks like while masks are compared: format and version modules light. */
  ghost function TestSymbol(typeNumber: nat, maskPattern: nat, words: seq<Slot>): (g: Grid)
    requires typeNumber >= 1 && maskPattern < 8
    ensures |g| == ModuleCount(typeNumber) && IsSquare(g)
  {
    SymbolOf(typeNumber, 0, 0, true, maskPattern, words)
  }

  lemma TestSymbolIs(typeNumber: nat, format: nat, version: nat, maskPattern: nat, words: seq<Slot>)
    requires typeNumber >= 1 && maskPattern < 8
    ensures SymbolOf(typeNumber, format, version, true, maskPattern, words)
      == TestSymbol(typeNumber, maskPattern, words)
  {
    hide IsFunction, Placed, InFinder, InAlignment, InTiming, InFormat, PatternPosition, BitOf;
    var a, b := SymbolOf(typeNumber, format, version, true, maskPattern, words),
      TestSymbol(typeNumber, maskPattern, words);
    forall r | 0 <= r < |a|
      ensures a[r] == b[r]
    {
      assert forall c :: 0 <= c < |a| ==> a[r][c] == b[r][c];
    }
  }

  ghost function TestPenalty(typeNumber: nat, maskPattern: nat, words: seq<Slot>): (p: real)
    requires typeNumber >= 1 && maskPattern < 8
  {
    PenaltyScore(TestSymbol(typeNumber, maskPattern, words))
  }

  /** The first mask with the least penalty among the first n. */
  ghost predicate BestOf(typeNumber: nat, words: seq<Slot>, pattern: nat, n: nat)
    requires typeNumber >= 1 && n <= 8
  {
    && pattern < n
    && (forall i :: 0 <= i < n ==> TestPenalty(typeNumber, pattern, words) <= TestPenalty(typeNumber, i, words))
    && (forall i :: 0 <= i < pattern ==> TestPenalty(typeNumber, pattern, words) < TestPenalty(typeNumber, i, words))
  }

  /** What making a symbol that cannot be made reports. */
  function MakeError(typeNumber: int, level: nat): (e: Error)
  {
    if typeNumber > 40 then NoPattern else if level >= 4 then BadBlock else CodeLengthOverflow
  }

  /** The least version below 40 that fits, else 40. */
  ghost predicate IsLeastVersion(dataList: seq<QR8bitByte>, level: nat, v: nat)
  {
    && 1 <= v <= 40
    && (v < 40 ==> Fits(dataList, v, level))
    && (forall w: nat :: 1 <= w < v ==> !Fits(dataList, w, level))
  }

  /** After all setup steps and `mapData`, the matrix shows the symbol. */
  lemma MatrixComplete(modules: array2<Cell>, typeNumber: nat, format: nat, version: nat, test: bool,
                       maskPattern: nat, words: seq<Slot>)
    requires typeNumber >= 1 && maskPattern < 8 && Square(modules, ModuleCount(typeNumber))
    requires forall r, c :: 0 <= r < modules.Length0 && 0 <= c < modules.Length0 && IsFunction(typeNumber, r, c) ==>
      modules[r, c] == PatternCell(typeNumber, format, version, test, r, c)
    requires forall r, c :: 0 <= r < modules.Length0 && 0 <= c < modules.Length0 && !IsFunction(typeNumber, r, c) ==>
      c != 6 && modules[r, c] == Some(Placed(typeNumber, words, maskPattern, r, c))
    ensures Shows(modules, SymbolOf(typeNumber, format, version, test, maskPattern, words))
  {
    hide IsFunction, Placed, FunctionDark;
  }

  class QRCode {
    const qm: QRMath
    var typeNumber: int
    var errorCorrectLevel: nat
    var modules: array2?<Cell>
    var moduleCount: nat
    var dataCache: Option<seq<Slot>>
    var dataList: seq<QR8bitByte>

    /** The cached codewords, if any, are those of the current data, version and level. */
    ghost predicate Valid()
      reads this, qm.expTable, qm.logTable
    {
      && qm.Valid()
      && ByteEntries(dataList)
      && (dataCache.Some? ==>
            && Makeable()
            && IsCreatedData(dataCache.value, typeNumber, errorCorrectLevel, dataList))
    }

    /** The data fits the chosen version, which exists. */
    ghost predicate Makeable()
      reads this
    {
      typeNumber >= 1 && Supported(typeNumber, errorCorrectLevel) && Fits(dataList, typeNumber, errorCorrectLevel)
    }

    constructor (qm: QRMath, typeNumber: int, errorCorrectLevel: nat)
      requires qm.Valid()
      ensures Valid() && this.qm == qm
      ensures this.typeNumber == typeNumber && this.errorCorrectLevel == errorCorrectLevel && dataList == []
    {
      this.qm := qm;
      this.typeNumber := typeNumber;
      this.errorCorrectLevel := errorCorrectLevel;
      modules := null;
      moduleCount := 0;
      dataCache := None;
      dataList := [];
    }

    method AddData(data: seq<Unit>)
      requires Valid()
      modifies this`dataList, this`dataCache
      ensures Valid() && dataCache.None?
      ensures Payloads(dataList) == old(Payloads(dataList)) + [EncodeText(data)]
    {
      var entry := NewEightBitByte(data);
      dataList := dataList + [entry];
      dataCache := None;
    }

    method MakeImpl(test: bool, maskPattern: nat) returns (r: Result<()>, ghost format: nat, ghost version: nat)
      requires Valid() && typeNumber >= 1 && maskPattern < 8
      modifies this`modules, this`moduleCount, this`dataCache
      ensures Valid()
      ensures r.Success? <==> Makeable()
      ensures r.Failure? ==> r.error == MakeError(typeNumber, errorCorrectLevel)
      ensures old(dataCache).Some? ==> dataCache == old(dataCache)
      ensures r.Success? ==>
        && dataCache.Some? && modules != null
        && IsFormatWord(format, errorCorrectLevel, maskPattern)
        && (typeNumber >= 7 ==> IsCodeword(version, typeNumber, G18, 12))
        && Shows(modules, SymbolOf(typeNumber, format, version, test, maskPattern, dataCache.value))
    {
      hide QRMath.Valid, PatternCell, IsFunction, IsCodeword, SymbolOf, Placed, Fits, IsCreatedData, Supported;
      format, version := 0, 0;
      SupportedRange(typeNumber, errorCorrectLevel);
      moduleCount := ModuleCount(typeNumber);
      var matrix := new Cell[moduleCount, moduleCount]((_, _) => None);
      modules := matrix;
      if typeNumber > 40 {
        DrawFinders(matrix, typeNumber);
        return Failure(NoPattern), format, version;
      }
      format, version := DrawPatterns(matrix, typeNumber, errorCorrectLevel, test, maskPattern);
      if dataCache.None? {
        var words := CreateData(qm, typeNumber, errorCorrectLevel, dataList);
        if words.Failure? {
          return Failure(words.error), format, version;
        }
        dataCache := Some(words.value);
      }
      assert Undecided(matrix, typeNumber) by {
        PatternsLeaveData(matrix, typeNumber, format, version, test);
      }
      MapData(matrix, typeNumber, dataCache.value, maskPattern);
      MatrixComplete(matrix, typeNumber, format, version, test, maskPattern, dataCache.value);
      r := Success(());
    }

    method GetBestMaskPattern() returns (r: Result<nat>)
      requires Valid() && typeNumber >= 1
      modifies this`modules, this`moduleCount, this`dataCache
      ensures Valid()
      ensures r.Success? <==> Makeable()
      ensures r.Failure? ==> r.error == MakeError(typeNumber, errorCorrectLevel)
      ensures r.Success? ==> dataCache.Some? && BestOf(typeNumber, dataCache.value, r.value, 8)
    {
      hide QRMath.Valid, Shows, IsFormatWord, IsCodeword, SymbolOf, PenaltyScore, Fits, IsCreatedData, Supported,
        TestSymbol;
      var minLostPoint := 0.0;
      var pattern := 0;
      for i := 0 to 8
        invariant Valid()
        invariant i > 0 ==> Makeable() && dataCache.Some?
        invariant i > 0 ==> minLostPoint == TestPenalty(typeNumber, pattern, dataCache.value)
        invariant i > 0 ==> BestOf(typeNumber, dataCache.value, pattern, i)
      {
        var made, format, version := MakeImpl(true, i);
        if made.Failure? {
          return Failure(made.error);
        }
        TestSymbolIs(typeNumber, format, version, i, dataCache.value);
        var lostPoint := GetLostPoint(modules, TestSymbol(typeNumber, i, dataCache.value));
        if i == 0 || minLostPoint > lostPoint {
          minLostPoint := lostPoint;
          pattern := i;
        }
      }
      return Success(pattern);
    }

    /** The number of bits the segments take at a version. */
    method SegmentLength(typeNumber: nat) returns (n: nat)
      requires Valid()
      ensures n == |StreamBits(Payloads(dataList), typeNumber)|
    {
      var buffer := new QRBitBuffer();
      WriteSegments(buffer, dataList, typeNumber);
      n := buffer.GetLengthInBits();
    }

    method SelectVersion() returns (r: Result<nat>)
      requires Valid()
      ensures errorCorrectLevel < 4 ==> r.Success? && IsLeastVersion(dataList, errorCorrectLevel, r.value)
      ensures errorCorrectLevel >= 4 ==> r == Failure(BadBlock)
    {
      hide QRMath.Valid, StreamBits, BlocksOf, DataOf, Makeable, IsCreatedData;
      var v := 1;
      while v < 40
        invariant 1 <= v <= 40
        invariant v > 1 ==> errorCorrectLevel < 4
        invariant forall w: nat :: 1 <= w < v ==> !Fits(dataList, w, errorCorrectLevel)
        decreases 40 - v
      {
        var rsBlocks :- GetRSBlocks(v, errorCorrectLevel);
        var totalDataCount := TotalDataCount(rsBlocks);
        var n := SegmentLength(v);
        if n <= totalDataCount * 8 {
          break;
        }
        v := v + 1;
      }
      return Success(v);
    }

    /** Chooses a version unless one is fixed, then the best mask, then builds the symbol. */
    method Make() returns (r: Result<()>)
      requires Valid()
      modifies this`typeNumber, this`modules, this`moduleCount, this`dataCache
      ensures Valid()
      ensures old(typeNumber) >= 1 || errorCorrectLevel >= 4 ==> typeNumber == old(typeNumber)
      ensures old(typeNumber) < 1 && errorCorrectLevel < 4 ==>
        typeNumber >= 1 && IsLeastVersion(dataList, errorCorrectLevel, typeNumber)
      ensures r.Success? <==> Makeable()
      ensures r.Failure? ==> r.error == MakeError(typeNumber, errorCorrectLevel)
      ensures r.Success? ==>
        && dataCache.Some? && modules != null
        && exists g, pattern: nat, format: nat, version: nat ::
             && BestOf(typeNumber, dataCache.value, pattern, 8)
             && g == SymbolOf(typeNumber, format, version, false, pattern, dataCache.value)
             && Shows(modules, g)
             && DecodeSymbol(g) == Some(Payloads(dataList))
    {
      hide QRMath.Valid, Shows, IsFormatWord, IsCodeword, SymbolOf, DecodeSymbol, Fits, IsCreatedData, Supported,
        IsLeastVersion;
      if typeNumber < 1 {
        var v :- SelectVersion();
        LeastVersionRange(dataList, errorCorrectLevel, v);
        typeNumber := v;
      }
      var pattern :- GetBestMaskPattern();
      var made, format, version := MakeImpl(false, pattern);
      SymbolDecodes(typeNumber, errorCorrectLevel, format, version, pattern, dataCache.value, dataList);
      return made;
    }
  }

  lemma LeastVersionRange(dataList: seq<QR8bitByte>, level: nat, v: nat)
    requires IsLeastVersion(dataList, level, v)
    ensures 1 <= v <= 40
  {
  }

  lemma SupportedRange(typeNumber: nat, level: nat)
    requires typeNumber >= 1
    ensures Supported(typeNumber, level) <==> typeNumber <= 40 && level < 4
  {
  }

  lemma PatternsLeaveData(modules: array2<Cell>, typeNumber: nat, format: nat, version: nat, test: bool)
    requires typeNumber >= 1 && PatternsDrawn(modules, typeNumber, format, version, test)
    ensures Undecided(modules, typeNumber)
  {
    hide IsFunction, FunctionDark;
  }

  /** From text to symbol, as rendering does it: every text that fits version 40 at the level gives a
      symbol from which the text is read back; every other text gives the overflow error. */
  method EncodeSymbol(qm: QRMath, text: seq<Unit>, level: nat) returns (r: Result<array2<Cell>>)
    requires qm.Valid() && level < 4
    ensures r.Success? <==> exists v: nat :: 1 <= v <= 40 && TextFits(text, v, level)
    ensures r.Failure? ==> r.error == CodeLengthOverflow
    ensures r.Success? ==> exists g, payload ::
      Shows(r.value, g) && DecodeSymbol(g) == Some([payload]) && DecodeText(payload) == text
  {
    hide QRMath.Valid, Shows, DecodeSymbol, Fits, IsCreatedData, Supported, IsLeastVersion;
    var qr := new QRCode(qm, 0, level);
    qr.AddData(text);
    ghost var dataList := qr.dataList;
    assert Payloads(dataList) == [EncodeText(text)];
    var made := qr.Make();
    TextRoundTrip(text);
    LeastVersionFits(text, dataList, level, qr.typeNumber);
    LeastVersionRange(dataList, level, qr.typeNumber);
    if made.Failure? {
      return Failure(made.error);
    }
    return Success(qr.modules);
  }

  /** The text, as one segment, fits the version. */
  ghost predicate TextFits(text: seq<Unit>, typeNumber: nat, level: nat)
  {
    4 + LengthBits(typeNumber) + 8 * |EncodeText(text)| <= DataCapacity(typeNumber, level)
  }

  lemma OneSegment(text: seq<Unit>, dataList: seq<QR8bitByte>, v: nat, level: nat)
    requires Payloads(dataList) == [EncodeText(text)]
    ensures Fits(dataList, v, level) <==> TextFits(text, v, level)
  {
    hide DataCapacity, EncodeText;
    assert StreamBits([EncodeText(text)], v) == SegmentBits(EncodeText(text), v) + StreamBits([], v);
  }

  lemma LeastVersionFits(text: seq<Unit>, dataList: seq<QR8bitByte>, level: nat, v: nat)
    requires level < 4 && Payloads(dataList) == [EncodeText(text)] && IsLeastVersion(dataList, level, v)
    ensures Supported(v, level)
    ensures Fits(dataList, v, level) <==> exists w: nat :: 1 <= w <= 40 && TextFits(text, w, level)
  {
    hide Fits, TextFits;
    OneSegment(text, dataList, v, level);
    if w: nat :| 1 <= w <= 40 && TextFits(text, w, level) {
      OneSegment(text, dataList, w, level);
    }
  }
}
