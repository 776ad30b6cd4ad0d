/** The data bit stream (sections 7.4.5, 7.4.9 and 7.4.10 of ISO/IEC 18004): segments, terminator
    and padding, and the parser that reads the segments back. */
module Segments {
  import opened Gf2
  import opened Gf256
  import opened Bits
  import opened Results

  /** The width of the length field of an 8-bit-byte segment. */
  function LengthBits(typeNumber: nat): (n: nat)
  {
    if 1 <= typeNumber < 10 then 8 else 16
  }

  function SegmentBits(payload: seq<Byte>, typeNumber: nat): (r: seq<bool>)
    ensures |r| == 4 + LengthBits(typeNumber) + 8 * |payload|
  {
    NumBits(4, 4) + NumBits(|payload|, LengthBits(typeNumber)) + BytesToBits(payload)
  }

  function StreamBits(payloads: seq<seq<Byte>>, typeNumber: nat): (r: seq<bool>)
  {
    if payloads == [] then []
    else SegmentBits(payloads[0], typeNumber) + StreamBits(payloads[1..], typeNumber)
  }

  lemma {:induction false} StreamSnoc(payloads: seq<seq<Byte>>, p: seq<Byte>, typeNumber: nat)
    ensures StreamBits(payloads + [p], typeNumber) == StreamBits(payloads, typeNumber) + SegmentBits(p, typeNumber)
  {
    hide SegmentBits;
    if payloads == [] {
      assert [p][1..] == [] && payloads + [p] == [p];
    } else {
      StreamSnoc(payloads[1..], p, typeNumber);
      assert (payloads + [p])[1..] == payloads[1..] + [p];
    }
  }

  // ---- terminator and padding

  function Falses(n: nat): (r: seq<bool>)
    ensures |r| == n
  {
    seq(n, i => false)
  }

  /** Four zero bits if they fit, then zero bits up to the next byte boundary. */
  function Terminate(bits: seq<bool>, capacity: nat): (r: seq<bool>)
  {
    var t := if |bits| + 4 <= capacity then bits + Falses(4) else bits;
    t + Falses((8 - |t| % 8) % 8)
  }

  /** Pad codewords 0xEC and 0x11 in turn, `odd` telling which is next. */
  function Fill(bits: seq<bool>, capacity: nat, odd: bool): (r: seq<bool>)
    ensures |bits| <= |r| && r[..|bits|] == bits
    decreases if |bits| < capacity then capacity - |bits| else 0
  {
    if |bits| >= capacity then bits
    else
      var longer := bits + NumBits(if odd then 0x11 else 0xEC, 8);
      assert longer[..|bits|] == bits;
      var r := Fill(longer, capacity, !odd);
      assert r[..|bits|] == r[..|longer|][..|bits|];
      r
  }

  function FinalBits(payloads: seq<seq<Byte>>, typeNumber: nat, capacity: nat): (r: seq<bool>)
  {
    Fill(Terminate(StreamBits(payloads, typeNumber), capacity), capacity, false)
  }

  lemma {:induction false} FillLength(bits: seq<bool>, capacity: nat, odd: bool)
    requires |bits| % 8 == 0 && capacity % 8 == 0 && |bits| <= capacity
    ensures |Fill(bits, capacity, odd)| == capacity
    decreases capacity - |bits|
  {
    hide NumBits;
    if |bits| < capacity {
      FillNext(bits, capacity, odd);
      hide Fill;
      FillLength(bits + NumBits(if odd then 0x11 else 0xEC, 8), capacity, !odd);
    }
  }

  lemma FillNext(bits: seq<bool>, capacity: nat, odd: bool)
    requires |bits| < capacity
    ensures Fill(bits, capacity, odd) == Fill(bits + NumBits(if odd then 0x11 else 0xEC, 8), capacity, !odd)
  {
    hide NumBits;
  }

  lemma AlignedLength(n: nat, capacity: nat)
    requires n <= capacity && capacity % 8 == 0
    ensures (n + (8 - n % 8) % 8) % 8 == 0 && n + (8 - n % 8) % 8 <= capacity
  {
  }

  lemma TerminateShape(bits: seq<bool>, capacity: nat)
    requires capacity % 8 == 0 && |bits| <= capacity
    ensures var t := Terminate(bits, capacity);
            && |t| % 8 == 0 && |bits| <= |t| <= capacity
            && t[..|bits|] == bits
            && (capacity - |bits| >= 4 ==> |t| >= |bits| + 4 && t[|bits|..|bits| + 4] == Falses(4))
  {
    hide Falses;
    var t := if |bits| + 4 <= capacity then bits + Falses(4) else bits;
    AlignedLength(|t|, capacity);
    assert Terminate(bits, capacity)[..|t|] == t;
  }

  lemma PrefixOfPrefix(a: seq<bool>, b: seq<bool>, i: nat, j: nat)
    requires i <= j <= |b| <= |a| && a[..|b|] == b
    ensures a[i..j] == b[i..j]
  {
    forall k | 0 <= k < j - i
      ensures a[i..j][k] == b[i..j][k]
    {
      assert a[..|b|][i + k] == b[i + k];
    }
  }

  /** A stream that fits is padded to exactly the capacity, and begins with the stream; what follows
      is shorter than a mode field or starts with the terminator. */
  lemma FinalBitsShape(payloads: seq<seq<Byte>>, typeNumber: nat, capacity: nat)
    requires capacity % 8 == 0 && |StreamBits(payloads, typeNumber)| <= capacity
    ensures var stream := StreamBits(payloads, typeNumber);
            var final := FinalBits(payloads, typeNumber, capacity);
            && |final| == capacity
            && final[..|stream|] == stream
            && (capacity - |stream| >= 4 ==> final[|stream|..|stream| + 4] == Falses(4))
  {
    hide Terminate, Fill, StreamBits, Falses;
    var stream := StreamBits(payloads, typeNumber);
    var t := Terminate(stream, capacity);
    var final := Fill(t, capacity, false);
    TerminateShape(stream, capacity);
    FillLength(t, capacity, false);
    PrefixOfPrefix(final, t, 0, |stream|);
    if capacity - |stream| >= 4 {
      PrefixOfPrefix(final, t, |stream|, |stream| + 4);
    }
  }

  // ---- reading back

  /** The reader's width of the length field, from Table 3 of ISO/IEC 18004: 8 bits up to version 9. */
  function LengthWidth(typeNumber: nat): (n: nat)
  {
    if typeNumber == 0 || typeNumber > 9 then 16 else 8
  }

  lemma WidthsAgree(typeNumber: nat)
    ensures LengthWidth(typeNumber) == LengthBits(typeNumber)
  {
  }

  /** Reads 8-bit-byte segments until a terminator, or until fewer than four bits are left. */
  function Parse(bits: seq<bool>, typeNumber: nat): (r: Option<seq<seq<Byte>>>)
    decreases |bits|
  {
    var lb := LengthWidth(typeNumber);
    if |bits| < 4 || FromBits(bits[..4]) == 0 then Some([])
    else if FromBits(bits[..4]) != 4 || |bits| < 4 + lb then None
    else
      var n := FromBits(bits[4..4 + lb]);
      if |bits| < 4 + lb + 8 * n then None
      else
        match Parse(bits[4 + lb + 8 * n..], typeNumber)
        case None => None
        case Some(rest) => Some([Pack(bits[4 + lb..4 + lb + 8 * n])] + rest)
  }

  /** No length field is truncated. */
  predicate LengthsFit(payloads: seq<seq<Byte>>, typeNumber: nat)
  {
    forall p :: p in payloads ==> |p| < Pow2(LengthBits(typeNumber))
  }

  lemma ModeBits()
    ensures FromBits(NumBits(4, 4)) == 4 && FromBits(Falses(4)) == 0
  {
    assert Pow2(4) == 16;
    FromNumBits(4, 4);
    FromNumBits(0, 4);
    assert NumBits(0, 4) == [false, false, false, false] == Falses(4);
  }

  lemma {:induction false} PackUnpack(bytes: seq<Byte>)
    ensures Pack(BytesToBits(bytes)) == bytes
  {
    if bytes != [] {
      var first := ByteBits(bytes[0]);
      PackUnpack(bytes[1..]);
      assert Pow2(8) == 256;
      FromNumBits(bytes[0], 8);
      assert PackByte(first) == bytes[0];
      var bits := BytesToBits(bytes);
      assert bits[..8] == first && bits[8..] == BytesToBits(bytes[1..]);
      if |bytes| == 1 {
        assert bits == first;
      }
    }
  }

  /** One step of the parser on bits that start with a segment. */
  lemma ParseFront(bits: seq<bool>, count: nat, typeNumber: nat)
    requires |bits| >= 4 + LengthWidth(typeNumber) + 8 * count
    requires FromBits(bits[..4]) == 4 && FromBits(bits[4..4 + LengthWidth(typeNumber)]) == count
    ensures var start := 4 + LengthWidth(typeNumber);
      Parse(bits, typeNumber) == match Parse(bits[start + 8 * count..], typeNumber)
        case None => None
        case Some(rest) => Some([Pack(bits[start..start + 8 * count])] + rest)
  {
    hide FromBits, LengthWidth, Pack;
  }

  lemma FourParts(a: seq<bool>, b: seq<bool>, c: seq<bool>, d: seq<bool>, i: nat, j: nat, k: nat)
    requires i == |a| && j == i + |b| && k == j + |c|
    ensures var s := a + b + c + d; s[..i] == a && s[i..j] == b && s[j..k] == c && s[k..] == d
  {
  }

  lemma SegmentParts(p: seq<Byte>, rest: seq<bool>, typeNumber: nat)
    ensures var bits, lb := SegmentBits(p, typeNumber) + rest, LengthBits(typeNumber);
      && bits[..4] == NumBits(4, 4) && bits[4..4 + lb] == NumBits(|p|, lb)
      && bits[4 + lb..4 + lb + 8 * |p|] == BytesToBits(p) && bits[4 + lb + 8 * |p|..] == rest
  {
    hide NumBits, BytesToBits, LengthBits;
    var lb := LengthBits(typeNumber);
    FourParts(NumBits(4, 4), NumBits(|p|, lb), BytesToBits(p), rest, 4, 4 + lb, 4 + lb + 8 * |p|);
  }

  lemma ParseSegment(p: seq<Byte>, rest: seq<bool>, typeNumber: nat)
    requires |p| < Pow2(LengthBits(typeNumber))
    ensures Parse(SegmentBits(p, typeNumber) + rest, typeNumber)
         == match Parse(rest, typeNumber) case None => None case Some(ps) => Some([p] + ps)
  {
    hide NumBits, FromBits, BytesToBits, Pack, Pow2, LengthBits, LengthWidth, Parse, SegmentBits;
    WidthsAgree(typeNumber);
    ModeBits();
    FromNumBits(|p|, LengthBits(typeNumber));
    PackUnpack(p);
    SegmentParts(p, rest, typeNumber);
    ParseFront(SegmentBits(p, typeNumber) + rest, |p|, typeNumber);
  }

  lemma ParseTail(tail: seq<bool>, typeNumber: nat)
    requires |tail| < 4 || tail[..4] == Falses(4)
    ensures Parse(tail, typeNumber) == Some([])
  {
    ModeBits();
    hide FromBits, LengthWidth, Falses;
  }

  lemma {:induction false} ParseStream(payloads: seq<seq<Byte>>, tail: seq<bool>, typeNumber: nat)
    requires LengthsFit(payloads, typeNumber)
    requires |tail| < 4 || tail[..4] == Falses(4)
    ensures Parse(StreamBits(payloads, typeNumber) + tail, typeNumber) == Some(payloads)
  {
    hide SegmentBits, Pow2, Parse, Falses, LengthBits;
    if payloads == [] {
      ParseTail(tail, typeNumber);
      assert StreamBits(payloads, typeNumber) + tail == tail;
    } else {
      var rest := StreamBits(payloads[1..], typeNumber) + tail;
      ParseStream(payloads[1..], tail, typeNumber);
      assert payloads[0] in payloads;
      ParseSegment(payloads[0], rest, typeNumber);
      assert StreamBits(payloads, typeNumber) + tail == SegmentBits(payloads[0], typeNumber) + rest;
      assert [payloads[0]] + payloads[1..] == payloads;
    }
  }

  /** Parsing the padded stream recovers every segment. */
  lemma FinalBitsParse(payloads: seq<seq<Byte>>, typeNumber: nat, capacity: nat)
    requires capacity % 8 == 0 && |StreamBits(payloads, typeNumber)| <= capacity
    requires LengthsFit(payloads, typeNumber)
    ensures |FinalBits(payloads, typeNumber, capacity)| == capacity
    ensures Parse(FinalBits(payloads, typeNumber, capacity), typeNumber) == Some(payloads)
  {
    hide StreamBits, FinalBits, Parse;
    var stream := StreamBits(payloads, typeNumber);
    var final := FinalBits(payloads, typeNumber, capacity);
    FinalBitsShape(payloads, typeNumber, capacity);
    var tail := final[|stream|..];
    if |tail| >= 4 {
      assert tail[..4] == final[|stream|..|stream| + 4];
    }
    ParseStream(payloads, tail, typeNumber);
    assert final == stream + tail;
  }

  /** In a stream that fits a symbol, no length field is truncated: capacities are small enough. */
  lemma {:induction false} FittingLengths(payloads: seq<seq<Byte>>, typeNumber: nat, dataCount: nat)
    requires typeNumber >= 1 && dataCount <= (if typeNumber < 10 then 257 else 65537)
    requires |StreamBits(payloads, typeNumber)| <= 8 * dataCount
    ensures LengthsFit(payloads, typeNumber)
  {
    assert Pow2(8) == 256 && Pow2(16) == 65536 by {
      assert Pow2(12) == 4096;
    }
    hide Pow2;
    if payloads != [] {
      FittingLengths(payloads[1..], typeNumber, dataCount);
      forall p | p in payloads
        ensures |p| < Pow2(LengthBits(typeNumber))
      {
        assert p == payloads[0] || p in payloads[1..];
      }
    }
  }
}
