/** A reference decoder for finished symbols, and the proof that it undoes the encoder. */
module Decoder {
  import opened Gf2
  import opened Gf256
  import opened Bch
  import opened Bits
  import opened Blocks
  import opened Layout
  import opened Segments
  import opened EightBitByte
  import opened ReedSolomon
  import opened Codewords
  import opened DataStream
  import opened ZigZag
  import opened MaskPictures
  import opened DataPlacement
  import opened Painting
  import opened Mapping
  import opened Results

  // ---- what a symbol shows

  /** The function patterns, given the format and version code words. */
  ghost function FunctionDark(typeNumber: nat, format: nat, version: nat, test: bool, r: nat, c: nat): (dark: bool)
    requires typeNumber >= 1 && InSymbol(typeNumber, r, c) && IsFunction(typeNumber, r, c)
  {
    var n, pos := ModuleCount(typeNumber), PatternPosition(typeNumber);
    if InFinder(n, r, c) then FinderDark(FinderRing(n, r, c))
    else if InAlignment(pos, r, c) then AlignmentDark(AlignmentRing(pos, r, c))
    else if InTiming(n, r, c) then TimingDark(r, c)
    else if InFormat(n, r, c) then FormatDark(format, test, FormatIndex(n, r, c))
    else !test && BitOf(version, VersionIndex(n, typeNumber, r, c))
  }

  ghost function SymbolDark(typeNumber: nat, format: nat, version: nat, test: bool, maskPattern: nat,
                            words: seq<Slot>, r: nat, c: nat): (dark: bool)
    requires typeNumber >= 1 && InSymbol(typeNumber, r, c) && maskPattern < 8
  {
    if IsFunction(typeNumber, r, c) then FunctionDark(typeNumber, format, version, test, r, c)
    else
      DataCellVisited(typeNumber, r, c);
      Placed(typeNumber, words, maskPattern, r, c)
  }

  ghost function SymbolOf(typeNumber: nat, format: nat, version: nat, test: bool, maskPattern: nat,
                          words: seq<Slot>): (g: Grid)
    requires typeNumber >= 1 && maskPattern < 8
    ensures |g| == ModuleCount(typeNumber) && IsSquare(g)
  {
    var n := ModuleCount(typeNumber);
    seq(n, r requires 0 <= r < n =>
      seq(n, c requires 0 <= c < n => SymbolDark(typeNumber, format, version, test, maskPattern, words, r, c)))
  }

  // ---- the decoder

  /** The generators of sections 7.9.2 and 7.10 of ISO/IEC 18004 by their powers of x: the first is
      x^10 + x^8 + x^5 + x^4 + x^2 + x + 1, the second x^12 + x^11 + x^10 + x^9 + x^8 + x^5 + x^2 + 1. */
  function FormatGenerator(): (g: nat)
  {
    Pow2(10) + Pow2(8) + Pow2(5) + Pow2(4) + Pow2(2) + Pow2(1) + Pow2(0)
  }

  function VersionGenerator(): (g: nat)
  {
    Pow2(12) + Pow2(11) + Pow2(10) + Pow2(9) + Pow2(8) + Pow2(5) + Pow2(2) + Pow2(0)
  }

  /** The mask of the format information, 101010000010010. */
  function FormatMask(): (m: nat)
  {
    Pow2(14) + Pow2(12) + Pow2(10) + Pow2(4) + Pow2(1)
  }

  lemma ReaderConstants()
    ensures FormatGenerator() == G15 && VersionGenerator() == G18 && FormatMask() == G15_MASK
  {
    assert Pow2(0) == 1 && Pow2(1) == 2 && Pow2(2) == 4 && Pow2(4) == 16 && Pow2(5) == 32 && Pow2(8) == 256;
    assert Pow2(10) == 4 * Pow2(8);
    assert Pow2(12) == 4 * Pow2(10);
    assert Pow2(14) == 4 * Pow2(12);
  }

  /** Row and column of format bit i next to the upper left finder, and of its second copy. */
  function FormatCell(i: nat): (x: (nat, nat))
    requires i < 15
  {
    if i < 6 then (i, 8) else if i < 8 then (i + 1, 8) else if i == 8 then (8, 7) else (8, 14 - i)
  }

  function FormatCopy(n: nat, i: nat): (x: (int, int))
    requires i < 15
  {
    if i < 8 then (8, n - 1 - i) else (n - 15 + i, 8)
  }

  /** The bits of the format information, highest first. */
  function FormatBits(g: Grid): (bits: seq<bool>)
    requires |g| >= 21 && IsSquare(g)
  {
    seq(15, i requires 0 <= i < 15 => g[FormatCell(14 - i).0][FormatCell(14 - i).1])
  }

  function FormatCopyBits(g: Grid): (bits: seq<bool>)
    requires |g| >= 21 && IsSquare(g)
  {
    seq(15, i requires 0 <= i < 15 => g[FormatCopy(|g|, 14 - i).0][FormatCopy(|g|, 14 - i).1])
  }

  /** The bits of the version information, highest first. */
  function VersionBits(g: Grid): (bits: seq<bool>)
    requires |g| >= 21 && IsSquare(g)
  {
    seq(18, i requires 0 <= i < 18 => g[(17 - i) / 3][|g| - 11 + (17 - i) % 3])
  }

  /** Reads a symbol with no errors in it: the side length gives the version (which the version
      information must confirm from version 7 on), the two copies of the format information must
      agree on a code word, which gives level and mask; then the data modules are unmasked and read
      in zig-zag order, de-interleaved, checked and parsed. */
  ghost function DecodeSymbol(g: Grid): (r: Option<seq<seq<Byte>>>)
  {
    if |g| < 21 || (|g| - 17) % 4 != 0 || |g| > 177 || !IsSquare(g) then None
    else
      var typeNumber := (|g| - 17) / 4;
      var x := Xor(FromBits(FormatBits(g)), FormatMask());
      var d := Shr(x, 10);
      if FormatCopyBits(g) != FormatBits(g) || !IsCodeword(x, d, FormatGenerator(), 10) || d >= 32 then None
      else if typeNumber >= 7 && !IsCodeword(FromBits(VersionBits(g)), typeNumber, VersionGenerator(), 12) then None
      else
        var level, maskPattern := d / 8, d % 8;
        var words := Pack(ReadPairs(g, typeNumber, maskPattern, PairCount(|g|)));
        DecodeWords(words, BlocksOf(typeNumber, level), typeNumber)
  }

  // ---- reading words back

  lemma WordOfBits(word: nat, bits: seq<bool>)
    requires word < Pow2(|bits|)
    requires forall i :: 0 <= i < |bits| ==> bits[i] == BitOf(word, |bits| - 1 - i)
    ensures FromBits(bits) == word
  {
    hide FromBits, NumBits, Pow2, BitOf;
    forall i | 0 <= i < |bits|
      ensures bits[i] == NumBits(word, |bits|)[i]
    {
      NumBitsAt(word, |bits|, i);
      BitOfIs(word, |bits| - 1 - i);
    }
    assert bits == NumBits(word, |bits|);
    FromNumBits(word, |bits|);
  }

  lemma BitOfIs(word: nat, i: nat)
    ensures BitOf(word, i) == (Shr(word, i) % 2 == 1)
  {
  }

  /** A codeword is no longer than its data and check bits. */
  lemma CodewordShort(code: nat, data: nat, g: nat, k: nat, m: nat)
    requires IsCodeword(code, data, g, k) && data < Pow2(m)
    ensures code < Pow2(m + k)
  {
    ShrBounds(data, m);
    ShrTwice(code, k, m);
    ShrBounds(code, m + k);
  }

  lemma {:induction false} ShrTwice(a: nat, k: nat, m: nat)
    ensures Shr(Shr(a, k), m) == Shr(a, k + m)
  {
    if k > 0 {
      ShrTwice(a / 2, k - 1, m);
    }
  }

  lemma FormatShown(typeNumber: nat, format: nat, version: nat, maskPattern: nat, words: seq<Slot>, r: int, c: int)
    requires 1 <= typeNumber <= 40 && maskPattern < 8 && InSymbol(typeNumber, r, c)
    requires InFormat(ModuleCount(typeNumber), r, c)
    ensures SymbolDark(typeNumber, format, version, false, maskPattern, words, r, c)
         == FormatDark(format, false, FormatIndex(ModuleCount(typeNumber), r, c))
  {
    hide InFinder, InAlignment, InTiming, InVersion, PatternPosition, Placed, BitOf;
    OthersDisjoint(typeNumber, r, c);
    if InAlignment(PatternPosition(typeNumber), r, c) {
      AlignmentAvoidsOthers(typeNumber, r, c);
    }
  }

  lemma VersionShown(typeNumber: nat, format: nat, version: nat, maskPattern: nat, words: seq<Slot>, r: int, c: int)
    requires 1 <= typeNumber <= 40 && maskPattern < 8 && InSymbol(typeNumber, r, c)
    requires InVersion(ModuleCount(typeNumber), typeNumber, r, c)
    ensures SymbolDark(typeNumber, format, version, false, maskPattern, words, r, c)
         == BitOf(version, VersionIndex(ModuleCount(typeNumber), typeNumber, r, c))
  {
    hide InFinder, InAlignment, InTiming, InFormat, PatternPosition, Placed, BitOf;
    OthersDisjoint(typeNumber, r, c);
    if InAlignment(PatternPosition(typeNumber), r, c) {
      AlignmentAvoidsOthers(typeNumber, r, c);
    }
  }

  /** The module above the lower left part of the format information is dark in every finished symbol. */
  lemma DarkModule(typeNumber: nat, format: nat, version: nat, maskPattern: nat, words: seq<Slot>)
    requires 1 <= typeNumber <= 40 && maskPattern < 8
    ensures SymbolOf(typeNumber, format, version, false, maskPattern, words)[4 * typeNumber + 9][8]
  {
    hide SymbolDark, BitOf;
    FormatShown(typeNumber, format, version, maskPattern, words, 4 * typeNumber + 9, 8);
  }

  /** A test symbol is light where the finished one shows format and version information, and equal elsewhere. */
  lemma TestShown(typeNumber: nat, format: nat, version: nat, maskPattern: nat, words: seq<Slot>, r: int, c: int)
    requires 1 <= typeNumber <= 40 && maskPattern < 8 && InSymbol(typeNumber, r, c)
    ensures var n := ModuleCount(typeNumber);
            SymbolDark(typeNumber, format, version, true, maskPattern, words, r, c) ==
              if InFormat(n, r, c) || InVersion(n, typeNumber, r, c) then false
              else SymbolDark(typeNumber, format, version, false, maskPattern, words, r, c)
  {
    hide InFinder, InAlignment, InTiming, InFormat, InVersion, PatternPosition, Placed, BitOf;
    OthersDisjoint(typeNumber, r, c);
    if InAlignment(PatternPosition(typeNumber), r, c) {
      AlignmentAvoidsOthers(typeNumber, r, c);
    }
  }

  lemma FormatCells(n: nat, i: nat)
    requires n >= 21 && i < 15
    ensures var a := FormatCell(i);
            a.0 < n && a.1 < n && InFormat(n, a.0, a.1) && FormatIndex(n, a.0, a.1) == i
    ensures var b := FormatCopy(n, i);
            0 <= b.0 < n && 0 <= b.1 < n && InFormat(n, b.0, b.1) && FormatIndex(n, b.0, b.1) == i
  {
  }

  lemma FormatModules(typeNumber: nat, format: nat, version: nat, maskPattern: nat, words: seq<Slot>, i: nat)
    requires 1 <= typeNumber <= 40 && maskPattern < 8 && i < 15
    ensures var g := SymbolOf(typeNumber, format, version, false, maskPattern, words);
            FormatBits(g)[i] == FormatCopyBits(g)[i] == BitOf(format, 14 - i)
  {
    hide SymbolDark, BitOf, InFormat, FormatIndex, FormatCell, FormatCopy;
    var g := SymbolOf(typeNumber, format, version, false, maskPattern, words);
    FormatCells(|g|, 14 - i);
    var a, b := FormatCell(14 - i), FormatCopy(|g|, 14 - i);
    FormatShown(typeNumber, format, version, maskPattern, words, a.0, a.1);
    FormatShown(typeNumber, format, version, maskPattern, words, b.0, b.1);
  }

  lemma FormatReadBack(typeNumber: nat, format: nat, version: nat, maskPattern: nat, words: seq<Slot>)
    requires 1 <= typeNumber <= 40 && maskPattern < 8 && format < Pow2(15)
    ensures var g := SymbolOf(typeNumber, format, version, false, maskPattern, words);
            FromBits(FormatBits(g)) == format && FormatCopyBits(g) == FormatBits(g)
  {
    hide FromBits, BitOf, Pow2, SymbolOf, FormatCell, FormatCopy;
    var g := SymbolOf(typeNumber, format, version, false, maskPattern, words);
    forall i | 0 <= i < 15
      ensures FormatBits(g)[i] == FormatCopyBits(g)[i] == BitOf(format, 14 - i)
    {
      FormatModules(typeNumber, format, version, maskPattern, words, i);
    }
    WordOfBits(format, FormatBits(g));
  }

  lemma VersionReadBack(typeNumber: nat, format: nat, version: nat, maskPattern: nat, words: seq<Slot>)
    requires 7 <= typeNumber <= 40 && maskPattern < 8 && version < Pow2(18)
    ensures FromBits(VersionBits(SymbolOf(typeNumber, format, version, false, maskPattern, words))) == version
  {
    hide SymbolDark, FromBits, BitOf, Pow2;
    var g := SymbolOf(typeNumber, format, version, false, maskPattern, words);
    forall i | 0 <= i < 18
      ensures VersionBits(g)[i] == BitOf(version, 17 - i)
    {
      var r, c := (17 - i) / 3, |g| - 11 + (17 - i) % 3;
      assert VersionIndex(|g|, typeNumber, r, c) == 17 - i;
      VersionShown(typeNumber, format, version, maskPattern, words, r, c);
    }
    WordOfBits(version, VersionBits(g));
  }

  lemma DataShown(typeNumber: nat, format: nat, version: nat, maskPattern: nat, words: seq<Slot>)
    requires typeNumber >= 1 && maskPattern < 8
    ensures ShowsData(SymbolOf(typeNumber, format, version, false, maskPattern, words), typeNumber, maskPattern, words)
  {
    hide IsFunction, PairOf, StepOf, Inverts, DataBit, Rank;
    var g := SymbolOf(typeNumber, format, version, false, maskPattern, words);
    SideOf(typeNumber);
    forall r, c | 0 <= r < |g| && 0 <= c < |g| && !IsFunction(typeNumber, r, c)
      ensures PairOf(|g|, c) >= 0 && StepOf(|g|, r, c) >= 0
      ensures g[r][c]
           == (DataBit(words, Rank(typeNumber, PairOf(|g|, c), StepOf(|g|, r, c))) != Inverts(maskPattern, r, c))
    {
      DataCellVisited(typeNumber, r, c);
      VisitOfCell(|g|, r, c);
    }
  }

  /** End to end: reading the finished symbol back yields exactly the payloads, for every supported
      version and level, every mask and every data that fits. */
  lemma SymbolDecodes(typeNumber: nat, level: nat, format: nat, version: nat, maskPattern: nat,
                      words: seq<Slot>, dataList: seq<QR8bitByte>)
    requires Supported(typeNumber, level) && maskPattern < 8
    requires IsFormatWord(format, level, maskPattern)
    requires typeNumber >= 7 ==> IsCodeword(version, typeNumber, G18, 12)
    requires Fits(dataList, typeNumber, level) && IsCreatedData(words, typeNumber, level, dataList)
    ensures DecodeSymbol(SymbolOf(typeNumber, format, version, false, maskPattern, words)) == Some(Payloads(dataList))
  {
    hide ReadPairs, SymbolDark, Pack, DecodeWords, FormatBits, FormatCopyBits, VersionBits, FromBits, DataTotal,
      Xor, Shr, Pow2, IsCodewords, BlocksSound, DataModules, FinalBits, StreamBits, BlocksOf,
      FormatGenerator, VersionGenerator, FormatMask;
    ReaderConstants();
    var g := SymbolOf(typeNumber, format, version, false, maskPattern, words);
    FormatShort(format, level, maskPattern);
    FormatReadBack(typeNumber, format, version, maskPattern, words);
    if typeNumber >= 7 {
      VersionShort(version, typeNumber);
      VersionReadBack(typeNumber, format, version, maskPattern, words);
    }
    DataShown(typeNumber, format, version, maskPattern, words);
    EnoughModules(typeNumber);
    BlocksFit(typeNumber, level);
    var tail := ReadBack(g, typeNumber, maskPattern, words);
    CreatedDataDecodes(words, typeNumber, level, dataList, tail);
  }

  lemma FormatShort(format: nat, level: nat, maskPattern: nat)
    requires IsFormatWord(format, level, maskPattern) && level < 4 && maskPattern < 8
    ensures format < Pow2(15)
  {
    assert Pow2(5) == 32;
    var x := Xor(format, G15_MASK);
    CodewordShort(x, 8 * level + maskPattern, G15, 10, 5);
    assert G15_MASK < Pow2(15) by {
      assert Pow2(10) == 1024;
      assert Pow2(15) == 32 * Pow2(10);
    }
    XorBelow(x, G15_MASK, 15);
    XorCancels(format, G15_MASK);
  }

  lemma VersionShort(version: nat, typeNumber: nat)
    requires IsCodeword(version, typeNumber, G18, 12) && typeNumber <= 40
    ensures version < Pow2(18)
  {
    assert Pow2(6) == 64;
    CodewordShort(version, typeNumber, G18, 12, 6);
  }
}
