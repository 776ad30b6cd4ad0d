/** The Reed-Solomon block structure of every version and error-correction level. */
module Blocks {
  import opened Results
  import opened BlockCounts

  const LEVEL_L: nat := 1
  const LEVEL_M: nat := 0
  const LEVEL_Q: nat := 3
  const LEVEL_H: nat := 2

  /** The side length of a symbol. */
  function ModuleCount(typeNumber: nat): (n: nat)
  {
    typeNumber * 4 + 17
  }

  /** How many alignment centres there are along one side. */
  function CentreCount(typeNumber: nat): (k: nat)
  {
    if typeNumber == 1 then 0 else typeNumber / 7 + 2
  }

  /** The modules left for data by Table 1 of ISO/IEC 18004: all of them, less three finders with
      their separators (3 * 64), the format information (31), the two timing patterns, the alignment
      patterns (25 each, except 3, of which those on the timing patterns share 5), and from version 7
      on the version information (36). */
  function DataModules(typeNumber: nat): (d: int)
  {
    var n, k := ModuleCount(typeNumber), CentreCount(typeNumber);
    n * n - 223 - 2 * (n - 16)
    - (if typeNumber == 1 then 0 else 25 * (k * k - 3) - 10 * (k - 2))
    - (if typeNumber < 7 then 0 else 36)
  }

  /** The codewords of each version by the same table. */
  function CodewordCount(typeNumber: nat): (c: nat)
  {
    match typeNumber
    case 1 => 26
    case 2 => 44
    case 3 => 70
    case 4 => 100
    case 5 => 134
    case 6 => 172
    case 7 => 196
    case 8 => 242
    case 9 => 292
    case 10 => 346
    case 11 => 404
    case 12 => 466
    case 13 => 532
    case 14 => 581
    case 15 => 655
    case 16 => 733
    case 17 => 815
    case 18 => 901
    case 19 => 991
    case 20 => 1085
    case 21 => 1156
    case 22 => 1258
    case 23 => 1364
    case 24 => 1474
    case 25 => 1588
    case 26 => 1706
    case 27 => 1828
    case 28 => 1921
    case 29 => 2051
    case 30 => 2185
    case 31 => 2323
    case 32 => 2465
    case 33 => 2611
    case 34 => 2761
    case 35 => 2876
    case 36 => 3034
    case 37 => 3196
    case 38 => 3362
    case 39 => 3532
    case 40 => 3706
    case _ => 0
  }

  /** Data modules in terms of the version alone, given the number of alignment centres. */
  lemma DataModulesAre(typeNumber: nat, k: nat)
    requires typeNumber >= 2 && k == CentreCount(typeNumber)
    ensures DataModules(typeNumber)
         == 16 * (typeNumber * typeNumber) + 128 * typeNumber + 64 - 25 * (k * k - 3) + 10 * (k - 2)
            - (if typeNumber < 7 then 0 else 36)
  {
    var n := ModuleCount(typeNumber);
    assert n * n == 16 * (typeNumber * typeNumber) + 136 * typeNumber + 289;
  }

  lemma CodewordCount0(typeNumber: nat)
    requires 2 <= typeNumber <= 6
    ensures 8 * CodewordCount(typeNumber) <= DataModules(typeNumber) < 8 * CodewordCount(typeNumber) + 8
  {
    DataModulesAre(typeNumber, 2);
    hide DataModules;
  }

  lemma CodewordCount1(typeNumber: nat)
    requires 7 <= typeNumber <= 13
    ensures 8 * CodewordCount(typeNumber) <= DataModules(typeNumber) < 8 * CodewordCount(typeNumber) + 8
  {
    DataModulesAre(typeNumber, 3);
    hide DataModules;
  }

  lemma CodewordCount2(typeNumber: nat)
    requires 14 <= typeNumber <= 20
    ensures 8 * CodewordCount(typeNumber) <= DataModules(typeNumber) < 8 * CodewordCount(typeNumber) + 8
  {
    DataModulesAre(typeNumber, 4);
    hide DataModules;
  }

  lemma CodewordCount3(typeNumber: nat)
    requires 21 <= typeNumber <= 27
    ensures 8 * CodewordCount(typeNumber) <= DataModules(typeNumber) < 8 * CodewordCount(typeNumber) + 8
  {
    DataModulesAre(typeNumber, 5);
    hide DataModules;
  }

  lemma CodewordCount4(typeNumber: nat)
    requires 28 <= typeNumber <= 34
    ensures 8 * CodewordCount(typeNumber) <= DataModules(typeNumber) < 8 * CodewordCount(typeNumber) + 8
  {
    DataModulesAre(typeNumber, 6);
    hide DataModules;
  }

  lemma CodewordCount5(typeNumber: nat)
    requires 35 <= typeNumber <= 40
    ensures 8 * CodewordCount(typeNumber) <= DataModules(typeNumber) < 8 * CodewordCount(typeNumber) + 8
  {
    DataModulesAre(typeNumber, 7);
    hide DataModules;
  }

  lemma CodewordCountIs(typeNumber: nat)
    requires 1 <= typeNumber <= 40
    ensures 8 * CodewordCount(typeNumber) <= DataModules(typeNumber) < 8 * CodewordCount(typeNumber) + 8
  {
    if typeNumber >= 2 {
      hide DataModules, CodewordCount;
      if typeNumber < 7 {
        CodewordCount0(typeNumber);
      } else if typeNumber < 14 {
        CodewordCount1(typeNumber);
      } else if typeNumber < 21 {
        CodewordCount2(typeNumber);
      } else if typeNumber < 28 {
        CodewordCount3(typeNumber);
      } else if typeNumber < 35 {
        CodewordCount4(typeNumber);
      } else {
        CodewordCount5(typeNumber);
      }
    }
  }

  datatype RSBlock = RSBlock(totalCount: nat, dataCount: nat)

  /** Rows of the block table: (count, total, data) triples per version, one function per level. */
  function RowL(typeNumber: nat): (r: seq<nat>)
  {
    match typeNumber
    case 1 => [1, 26, 19]
    case 2 => [1, 44, 34]
    case 3 => [1, 70, 55]
    case 4 => [1, 100, 80]
    case 5 => [1, 134, 108]
    case 6 => [2, 86, 68]
    case 7 => [2, 98, 78]
    case 8 => [2, 121, 97]
    case 9 => [2, 146, 116]
    case 10 => [2, 86, 68, 2, 87, 69]
    case 11 => [4, 101, 81]
    case 12 => [2, 116, 92, 2, 117, 93]
    case 13 => [4, 133, 107]
    case 14 => [3, 145, 115, 1, 146, 116]
    case 15 => [5, 109, 87, 1, 110, 88]
    case 16 => [5, 122, 98, 1, 123, 99]
    case 17 => [1, 135, 107, 5, 136, 108]
    case 18 => [5, 150, 120, 1, 151, 121]
    case 19 => [3, 141, 113, 4, 142, 114]
    case 20 => [3, 135, 107, 5, 136, 108]
    case 21 => [4, 144, 116, 4, 145, 117]
    case 22 => [2, 139, 111, 7, 140, 112]
    case 23 => [4, 151, 121, 5, 152, 122]
    case 24 => [6, 147, 117, 4, 148, 118]
    case 25 => [8, 132, 106, 4, 133, 107]
    case 26 => [10, 142, 114, 2, 143, 115]
    case 27 => [8, 152, 122, 4, 153, 123]
    case 28 => [3, 147, 117, 10, 148, 118]
    case 29 => [7, 146, 116, 7, 147, 117]
    case 30 => [5, 145, 115, 10, 146, 116]
    case 31 => [13, 145, 115, 3, 146, 116]
    case 32 => [17, 145, 115]
    case 33 => [17, 145, 115, 1, 146, 116]
    case 34 => [13, 145, 115, 6, 146, 116]
    case 35 => [12, 151, 121, 7, 152, 122]
    case 36 => [6, 151, 121, 14, 152, 122]
    case 37 => [17, 152, 122, 4, 153, 123]
    case 38 => [4, 152, 122, 18, 153, 123]
    case 39 => [20, 147, 117, 4, 148, 118]
    case 40 => [19, 148, 118, 6, 149, 119]
    case _ => []
  }

  function RowM(typeNumber: nat): (r: seq<nat>)
  {
    match typeNumber
    case 1 => [1, 26, 16]
    case 2 => [1, 44, 28]
    case 3 => [1, 70, 44]
    case 4 => [2, 50, 32]
    case 5 => [2, 67, 43]
    case 6 => [4, 43, 27]
    case 7 => [4, 49, 31]
    case 8 => [2, 60, 38, 2, 61, 39]
    case 9 => [3, 58, 36, 2, 59, 37]
    case 10 => [4, 69, 43, 1, 70, 44]
    case 11 => [1, 80, 50, 4, 81, 51]
    case 12 => [6, 58, 36, 2, 59, 37]
    case 13 => [8, 59, 37, 1, 60, 38]
    case 14 => [4, 64, 40, 5, 65, 41]
    case 15 => [5, 65, 41, 5, 66, 42]
    case 16 => [7, 73, 45, 3, 74, 46]
    case 17 => [10, 74, 46, 1, 75, 47]
    case 18 => [9, 69, 43, 4, 70, 44]
    case 19 => [3, 70, 44, 11, 71, 45]
    case 20 => [3, 67, 41, 13, 68, 42]
    case 21 => [17, 68, 42]
    case 22 => [17, 74, 46]
    case 23 => [4, 75, 47, 14, 76, 48]
    case 24 => [6, 73, 45, 14, 74, 46]
    case 25 => [8, 75, 47, 13, 76, 48]
    case 26 => [19, 74, 46, 4, 75, 47]
    case 27 => [22, 73, 45, 3, 74, 46]
    case 28 => [3, 73, 45, 23, 74, 46]
    case 29 => [21, 73, 45, 7, 74, 46]
    case 30 => [19, 75, 47, 10, 76, 48]
    case 31 => [2, 74, 46, 29, 75, 47]
    case 32 => [10, 74, 46, 23, 75, 47]
    case 33 => [14, 74, 46, 21, 75, 47]
    case 34 => [14, 74, 46, 23, 75, 47]
    case 35 => [12, 75, 47, 26, 76, 48]
    case 36 => [6, 75, 47, 34, 76, 48]
    case 37 => [29, 74, 46, 14, 75, 47]
    case 38 => [13, 74, 46, 32, 75, 47]
    case 39 => [40, 75, 47, 7, 76, 48]
    case 40 => [18, 75, 47, 31, 76, 48]
    case _ => []
  }

  function RowQ(typeNumber: nat): (r: seq<nat>)
  {
    match typeNumber
    case 1 => [1, 26, 13]
    case 2 => [1, 44, 22]
    case 3 => [2, 35, 17]
    case 4 => [2, 50, 24]
    case 5 => [2, 33, 15, 2, 34, 16]
    case 6 => [4, 43, 19]
    case 7 => [2, 32, 14, 4, 33, 15]
    case 8 => [4, 40, 18, 2, 41, 19]
    case 9 => [4, 36, 16, 4, 37, 17]
    case 10 => [6, 43, 19, 2, 44, 20]
    case 11 => [4, 50, 22, 4, 51, 23]
    case 12 => [4, 46, 20, 6, 47, 21]
    case 13 => [8, 44, 20, 4, 45, 21]
    case 14 => [11, 36, 16, 5, 37, 17]
    case 15 => [5, 54, 24, 7, 55, 25]
    case 16 => [15, 43, 19, 2, 44, 20]
    case 17 => [1, 50, 22, 15, 51, 23]
    case 18 => [17, 50, 22, 1, 51, 23]
    case 19 => [17, 47, 21, 4, 48, 22]
    case 20 => [15, 54, 24, 5, 55, 25]
    case 21 => [17, 50, 22, 6, 51, 23]
    case 22 => [7, 54, 24, 16, 55, 25]
    case 23 => [11, 54, 24, 14, 55, 25]
    case 24 => [11, 54, 24, 16, 55, 25]
    case 25 => [7, 54, 24, 22, 55, 25]
    case 26 => [28, 50, 22, 6, 51, 23]
    case 27 => [8, 53, 23, 26, 54, 24]
    case 28 => [4, 54, 24, 31, 55, 25]
    case 29 => [1, 53, 23, 37, 54, 24]
    case 30 => [15, 54, 24, 25, 55, 25]
    case 31 => [42, 54, 24, 1, 55, 25]
    case 32 => [10, 54, 24, 35, 55, 25]
    case 33 => [29, 54, 24, 19, 55, 25]
    case 34 => [44, 54, 24, 7, 55, 25]
    case 35 => [39, 54, 24, 14, 55, 25]
    case 36 => [46, 54, 24, 10, 55, 25]
    case 37 => [49, 54, 24, 10, 55, 25]
    case 38 => [48, 54, 24, 14, 55, 25]
    case 39 => [43, 54, 24, 22, 55, 25]
    case 40 => [34, 54, 24, 34, 55, 25]
    case _ => []
  }

  function RowH(typeNumber: nat): (r: seq<nat>)
  {
    match typeNumber
    case 1 => [1, 26, 9]
    case 2 => [1, 44, 16]
    case 3 => [2, 35, 13]
    case 4 => [4, 25, 9]
    case 5 => [2, 33, 11, 2, 34, 12]
    case 6 => [4, 43, 15]
    case 7 => [4, 39, 13, 1, 40, 14]
    case 8 => [4, 40, 14, 2, 41, 15]
    case 9 => [4, 36, 12, 4, 37, 13]
    case 10 => [6, 43, 15, 2, 44, 16]
    case 11 => [3, 36, 12, 8, 37, 13]
    case 12 => [7, 42, 14, 4, 43, 15]
    case 13 => [12, 33, 11, 4, 34, 12]
    case 14 => [11, 36, 12, 5, 37, 13]
    case 15 => [11, 36, 12, 7, 37, 13]
    case 16 => [3, 45, 15, 13, 46, 16]
    case 17 => [2, 42, 14, 17, 43, 15]
    case 18 => [2, 42, 14, 19, 43, 15]
    case 19 => [9, 39, 13, 16, 40, 14]
    case 20 => [15, 43, 15, 10, 44, 16]
    case 21 => [19, 46, 16, 6, 47, 17]
    case 22 => [34, 37, 13]
    case 23 => [16, 45, 15, 14, 46, 16]
    case 24 => [30, 46, 16, 2, 47, 17]
    case 25 => [22, 45, 15, 13, 46, 16]
    case 26 => [33, 46, 16, 4, 47, 17]
    case 27 => [12, 45, 15, 28, 46, 16]
    case 28 => [11, 45, 15, 31, 46, 16]
    case 29 => [19, 45, 15, 26, 46, 16]
    case 30 => [23, 45, 15, 25, 46, 16]
    case 31 => [23, 45, 15, 28, 46, 16]
    case 32 => [19, 45, 15, 35, 46, 16]
    case 33 => [11, 45, 15, 46, 46, 16]
    case 34 => [59, 46, 16, 1, 47, 17]
    case 35 => [22, 45, 15, 41, 46, 16]
    case 36 => [2, 45, 15, 64, 46, 16]
    case 37 => [24, 45, 15, 46, 46, 16]
    case 38 => [42, 45, 15, 32, 46, 16]
    case 39 => [10, 45, 15, 67, 46, 16]
    case 40 => [20, 45, 15, 61, 46, 16]
    case _ => []
  }

  function RsBlockTable(typeNumber: nat, level: nat): (r: seq<nat>)
  {
    if level == LEVEL_L then RowL(typeNumber)
    else if level == LEVEL_M then RowM(typeNumber)
    else if level == LEVEL_Q then RowQ(typeNumber)
    else if level == LEVEL_H then RowH(typeNumber)
    else []
  }

  predicate Supported(typeNumber: nat, level: nat)
  {
    1 <= typeNumber <= 40 && level < 4
  }

  /** Sums over a row's one or two triples. */
  function RowTotal(row: seq<nat>): (n: nat)
  {
    if |row| == 3 then row[0] * row[1]
    else if |row| == 6 then row[0] * row[1] + row[3] * row[4]
    else 0
  }

  function RowData(row: seq<nat>): (n: nat)
  {
    if |row| == 3 then row[0] * row[2]
    else if |row| == 6 then row[0] * row[2] + row[3] * row[5]
    else 0
  }

  /** One or two kinds of blocks, the second one longer by one data codeword. */
  predicate RowShape(row: seq<nat>)
  {
    && (|row| == 3 || |row| == 6)
    && row[0] > 0 && row[2] > 0
    && (|row| == 6 ==> row[3] > 0 && row[4] == row[1] + 1 && row[5] == row[2] + 1)
  }

  function RowCount(row: seq<nat>): (n: nat)
  {
    if |row| == 3 then row[0] else if |row| == 6 then row[0] + row[3] else 0
  }

  /** What the standard's tables say of a row for n blocks with e check codewords each: it holds that many, and
      exactly as many codewords as the symbol has room for. The data codewords are few enough that an 8-bit
      length field suffices below version 10 and a 16-bit one from there on. */
  predicate RowFits(row: seq<nat>, typeNumber: nat, n: nat, e: nat)
  {
    && RowShape(row)
    && RowCount(row) == n && row[1] == row[2] + e && 0 < e <= 30
    && RowTotal(row) == CodewordCount(typeNumber)
    && RowData(row) <= (if typeNumber < 10 then 257 else 65537)
  }

  lemma RowLFits0(v: nat)
    requires 1 <= v <= 10
    ensures RowFits(RowL(v), v, CountL(v), ChecksL(v))
  {
  }

  lemma RowLFits1(v: nat)
    requires 11 <= v <= 20
    ensures RowFits(RowL(v), v, CountL(v), ChecksL(v))
  {
  }

  lemma RowLFits2(v: nat)
    requires 21 <= v <= 30
    ensures RowFits(RowL(v), v, CountL(v), ChecksL(v))
  {
  }

  lemma RowLFits3(v: nat)
    requires 31 <= v <= 40
    ensures RowFits(RowL(v), v, CountL(v), ChecksL(v))
  {
  }

  lemma RowMFits0(v: nat)
    requires 1 <= v <= 10
    ensures RowFits(RowM(v), v, CountM(v), ChecksM(v))
  {
  }

  lemma RowMFits1(v: nat)
    requires 11 <= v <= 20
    ensures RowFits(RowM(v), v, CountM(v), ChecksM(v))
  {
  }

  lemma RowMFits2(v: nat)
    requires 21 <= v <= 30
    ensures RowFits(RowM(v), v, CountM(v), ChecksM(v))
  {
  }

  lemma RowMFits3(v: nat)
    requires 31 <= v <= 40
    ensures RowFits(RowM(v), v, CountM(v), ChecksM(v))
  {
  }

  lemma RowQFits0(v: nat)
    requires 1 <= v <= 10
    ensures RowFits(RowQ(v), v, CountQ(v), ChecksQ(v))
  {
  }

  lemma RowQFits1(v: nat)
    requires 11 <= v <= 20
    ensures RowFits(RowQ(v), v, CountQ(v), ChecksQ(v))
  {
  }

  lemma RowQFits2(v: nat)
    requires 21 <= v <= 30
    ensures RowFits(RowQ(v), v, CountQ(v), ChecksQ(v))
  {
  }

  lemma RowQFits3(v: nat)
    requires 31 <= v <= 40
    ensures RowFits(RowQ(v), v, CountQ(v), ChecksQ(v))
  {
  }

  lemma RowHFits0(v: nat)
    requires 1 <= v <= 10
    ensures RowFits(RowH(v), v, CountH(v), ChecksH(v))
  {
  }

  lemma RowHFits1(v: nat)
    requires 11 <= v <= 20
    ensures RowFits(RowH(v), v, CountH(v), ChecksH(v))
  {
  }

  lemma RowHFits2(v: nat)
    requires 21 <= v <= 30
    ensures RowFits(RowH(v), v, CountH(v), ChecksH(v))
  {
  }

  lemma RowHFits3(v: nat)
    requires 31 <= v <= 40
    ensures RowFits(RowH(v), v, CountH(v), ChecksH(v))
  {
  }

  /** Every row of the table is the one that the standard's tables call for. */
  lemma TableFits(typeNumber: nat, level: nat)
    requires Supported(typeNumber, level)
    ensures RowFits(RsBlockTable(typeNumber, level), typeNumber, BlockCount(typeNumber, level),
                    CheckCount(typeNumber, level))
  {
    hide RowFits, RowL, RowM, RowQ, RowH, CountL, CountM, CountQ, CountH, ChecksL, ChecksM, ChecksQ, ChecksH;
    if typeNumber <= 10 {
      RowLFits0(typeNumber);
      RowMFits0(typeNumber);
      RowQFits0(typeNumber);
      RowHFits0(typeNumber);
    } else if typeNumber <= 20 {
      RowLFits1(typeNumber);
      RowMFits1(typeNumber);
      RowQFits1(typeNumber);
      RowHFits1(typeNumber);
    } else if typeNumber <= 30 {
      RowLFits2(typeNumber);
      RowMFits2(typeNumber);
      RowQFits2(typeNumber);
      RowHFits2(typeNumber);
    } else {
      RowLFits3(typeNumber);
      RowMFits3(typeNumber);
      RowQFits3(typeNumber);
      RowHFits3(typeNumber);
    }
  }

  lemma UnsupportedRow(typeNumber: nat, level: nat)
    ensures RsBlockTable(typeNumber, level) == [] <==> !Supported(typeNumber, level)
  {
    if Supported(typeNumber, level) {
      TableFits(typeNumber, level);
    }
  }

  // ---- the list of blocks of a row

  function Repeat(block: RSBlock, count: nat): (r: seq<RSBlock>)
    ensures |r| == count
  {
    seq(count, i => block)
  }

  function Expand(row: seq<nat>): (r: seq<RSBlock>)
  {
    if |row| < 3 then [] else Repeat(RSBlock(row[1], row[2]), row[0]) + Expand(row[3..])
  }

  /** A block of the given length, of which `check` codewords are check codewords. */
  function BlockWith(total: nat, check: nat): (b: RSBlock)
  {
    RSBlock(total, if check <= total then total - check else 0)
  }

  /** The blocks that the standard gives a version and a level: the symbol's codewords dealt out over the
      blocks as evenly as possible, the shorter blocks first, each with the same number of check codewords. */
  function BlocksOf(typeNumber: nat, level: nat): (r: seq<RSBlock>)
  {
    var n, total, check := BlockCount(typeNumber, level), CodewordCount(typeNumber), CheckCount(typeNumber, level);
    if n == 0 then []
    else
      Repeat(BlockWith(total / n, check), n - total % n) + Repeat(BlockWith(total / n + 1, check), total % n)
  }

  function TotalOf(blocks: seq<RSBlock>): (n: nat)
  {
    if blocks == [] then 0 else TotalOf(blocks[..|blocks| - 1]) + blocks[|blocks| - 1].totalCount
  }

  function DataOf(blocks: seq<RSBlock>): (n: nat)
  {
    if blocks == [] then 0 else DataOf(blocks[..|blocks| - 1]) + blocks[|blocks| - 1].dataCount
  }

  /** Every block holds data and between 1 and 30 check symbols. */
  predicate BlocksSound(blocks: seq<RSBlock>)
  {
    forall b :: b in blocks ==> 0 < b.dataCount < b.totalCount <= b.dataCount + 30
  }

  lemma {:induction false} SumsConcat(a: seq<RSBlock>, b: seq<RSBlock>)
    ensures TotalOf(a + b) == TotalOf(a) + TotalOf(b) && DataOf(a + b) == DataOf(a) + DataOf(b)
    decreases |b|
  {
    if b == [] {
      assert a + b == a;
    } else {
      SumsConcat(a, b[..|b| - 1]);
      assert (a + b)[..|a + b| - 1] == a + b[..|b| - 1];
    }
  }

  lemma {:induction false} SumsRepeat(block: RSBlock, count: nat)
    ensures TotalOf(Repeat(block, count)) == count * block.totalCount
    ensures DataOf(Repeat(block, count)) == count * block.dataCount
  {
    if count > 0 {
      SumsRepeat(block, count - 1);
      assert Repeat(block, count)[..count - 1] == Repeat(block, count - 1);
      assert count * block.totalCount == (count - 1) * block.totalCount + block.totalCount;
      assert count * block.dataCount == (count - 1) * block.dataCount + block.dataCount;
    }
  }

  /** Summing and checking block by block agrees with the row. */
  lemma ExpandFacts(row: seq<nat>, check: nat)
    requires RowShape(row) && row[1] == row[2] + check && 0 < check <= 30
    ensures TotalOf(Expand(row)) == RowTotal(row) && DataOf(Expand(row)) == RowData(row)
    ensures BlocksSound(Expand(row))
  {
    hide TotalOf, DataOf;
    ExpandIs(row);
    SumsRepeat(RSBlock(row[1], row[2]), row[0]);
    if |row| == 6 {
      SumsRepeat(RSBlock(row[4], row[5]), row[3]);
      SumsConcat(Repeat(RSBlock(row[1], row[2]), row[0]), Repeat(RSBlock(row[4], row[5]), row[3]));
    }
  }

  lemma ExpandIs(row: seq<nat>)
    requires |row| == 3 || |row| == 6
    ensures var first := Repeat(RSBlock(row[1], row[2]), row[0]);
            Expand(row) == if |row| == 3 then first else first + Repeat(RSBlock(row[4], row[5]), row[3])
  {
    if |row| == 3 {
      assert row[3..] == [];
    } else {
      var rest := row[3..];
      assert rest[3..] == [];
      assert Expand(rest) == Repeat(RSBlock(row[4], row[5]), row[3]);
    }
  }

  /** Dividing by the number of blocks. */
  lemma Shares(total: nat, n: nat, q: nat, r: nat)
    requires r < n && total == n * q + r
    ensures total / n == q && total % n == r
  {
    var d := total / n - q;
    assert n * d == r - total % n;
    assert 0 - n < n * d < n;
  }

  /** The table lists the blocks of the standard. */
  lemma TableIsStandard(typeNumber: nat, level: nat)
    requires Supported(typeNumber, level)
    ensures Expand(RsBlockTable(typeNumber, level)) == BlocksOf(typeNumber, level)
  {
    hide RsBlockTable, CodewordCount, BlockCount, CheckCount, Repeat, Expand, Supported;
    TableFits(typeNumber, level);
    var row, n := RsBlockTable(typeNumber, level), BlockCount(typeNumber, level);
    ExpandIs(row);
    if |row| == 3 {
      Shares(CodewordCount(typeNumber), n, row[1], 0);
      assert Repeat(BlockWith(row[1] + 1, CheckCount(typeNumber, level)), 0) == [];
    } else {
      assert row[0] * row[1] + row[3] * row[4] == n * row[1] + row[3];
      Shares(CodewordCount(typeNumber), n, row[1], row[3]);
    }
  }

  /** Shorter blocks followed by blocks longer by one. */
  predicate TwoKinds(blocks: seq<RSBlock>, check: nat)
  {
    && (forall i :: 0 <= i < |blocks| ==> blocks[i].totalCount == blocks[i].dataCount + check)
    && (forall i, j :: 0 <= i <= j < |blocks| ==>
          blocks[i].dataCount <= blocks[j].dataCount <= blocks[i].dataCount + 1)
  }

  lemma RowIsTwoKinds(row: seq<nat>, check: nat)
    requires RowShape(row) && row[1] == row[2] + check
    ensures |Expand(row)| == RowCount(row) && TwoKinds(Expand(row), check)
  {
    hide Expand;
    ExpandIs(row);
  }

  /** The list has the tabulated number of blocks, each with the tabulated number of check codewords, the shorter
      ones first, and together they fill the symbol. */
  lemma BlocksShape(typeNumber: nat, level: nat)
    requires Supported(typeNumber, level)
    ensures var blocks := BlocksOf(typeNumber, level);
            && |blocks| == BlockCount(typeNumber, level) > 0
            && TotalOf(blocks) == CodewordCount(typeNumber)
            && TwoKinds(blocks, CheckCount(typeNumber, level))
  {
    hide RsBlockTable, CodewordCount, BlockCount, CheckCount, Supported, TotalOf, DataOf, RowTotal, RowData, TwoKinds,
      Expand, BlocksOf;
    TableFits(typeNumber, level);
    TableIsStandard(typeNumber, level);
    RowIsTwoKinds(RsBlockTable(typeNumber, level), CheckCount(typeNumber, level));
    ExpandFacts(RsBlockTable(typeNumber, level), CheckCount(typeNumber, level));
  }

  /** The block list as the encoder uses it. */
  lemma BlocksFit(typeNumber: nat, level: nat)
    requires Supported(typeNumber, level)
    ensures var blocks := BlocksOf(typeNumber, level);
            && BlocksSound(blocks)
            && 8 * TotalOf(blocks) <= DataModules(typeNumber) < 8 * TotalOf(blocks) + 8
            && DataOf(blocks) <= (if typeNumber < 10 then 257 else 65537)
  {
    hide DataModules, RsBlockTable, RowTotal, RowData, RowShape, RowCount, CodewordCount, BlockCount, CheckCount,
      Expand, BlocksOf;
    TableFits(typeNumber, level);
    TableIsStandard(typeNumber, level);
    CodewordCountIs(typeNumber);
    ExpandFacts(RsBlockTable(typeNumber, level), CheckCount(typeNumber, level));
  }

  lemma ExpandNext(row: seq<nat>, i: nat)
    requires i * 3 + 3 <= |row|
    ensures Expand(row[i * 3..])
         == Repeat(RSBlock(row[i * 3 + 1], row[i * 3 + 2]), row[i * 3]) + Expand(row[(i + 1) * 3..])
  {
    var rest := row[i * 3..];
    assert rest[3..] == row[(i + 1) * 3..];
  }

  lemma ExpandEnds(row: seq<nat>)
    requires |row| % 3 == 0
    ensures row[0 * 3..] == row && Expand(row[|row| / 3 * 3..]) == []
  {
  }

  lemma RowLength(row: seq<nat>)
    requires RowShape(row)
    ensures |row| == 3 || |row| == 6
  {
  }

  method GetRSBlocks(typeNumber: nat, level: nat) returns (r: Result<seq<RSBlock>>)
    ensures r == if Supported(typeNumber, level) then Success(BlocksOf(typeNumber, level)) else Failure(BadBlock)
  {
    hide RsBlockTable, RowShape, RowTotal, RowData, RowCount, CodewordCount, BlockCount, CheckCount, BlocksOf, Expand,
      Supported, Repeat;
    UnsupportedRow(typeNumber, level);
    var rsBlock := RsBlockTable(typeNumber, level);
    if |rsBlock| == 0 {
      return Failure(BadBlock);
    }
    TableFits(typeNumber, level);
    TableIsStandard(typeNumber, level);
    RowLength(rsBlock);
    ExpandEnds(rsBlock);
    var list: seq<RSBlock> := [];
    for i := 0 to |rsBlock| / 3
      invariant list + Expand(rsBlock[i * 3..]) == Expand(rsBlock)
    {
      ExpandNext(rsBlock, i);
      var count, totalCount, dataCount := rsBlock[i * 3 + 0], rsBlock[i * 3 + 1], rsBlock[i * 3 + 2];
      list := AddBlocks(list, RSBlock(totalCount, dataCount), count);
    }
    assert list + [] == list;
    return Success(list);
  }

  method AddBlocks(before: seq<RSBlock>, block: RSBlock, count: nat) returns (list: seq<RSBlock>)
    ensures list == before + Repeat(block, count)
  {
    list := before;
    for j := 0 to count
      invariant list == before + Repeat(block, j)
    {
      list := list + [block];
    }
  }
}
