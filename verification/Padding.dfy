/** What follows the segments in a data bit stream (sections 7.4.9 and 7.4.10 of ISO/IEC 18004), bit by bit. */
module Padding {
  import opened Bits
  import opened Gf256
  import opened Segments

  /** The pad codewords, written out: 11101100 and 00010001. */
  function PadBits(second: bool): (bits: seq<bool>)
    ensures |bits| == 8
  {
    if second then [false, false, false, true, false, false, false, true]
    else [true, true, true, false, true, true, false, false]
  }

  lemma FirstPad()
    ensures NumBits(0xEC, 8) == PadBits(false)
  {
  }

  lemma SecondPad()
    ensures NumBits(0x11, 8) == PadBits(true)
  {
  }

  /** Where the terminator ends: at the first byte boundary after four bits, or, when these do not fit, at the first
      one after the segments. */
  function PadStart(length: nat, capacity: nat): (start: nat)
  {
    var end := if length + 4 <= capacity then length + 4 else length;
    (end + 7) / 8 * 8
  }

  lemma TerminateIs(bits: seq<bool>, capacity: nat)
    ensures |Terminate(bits, capacity)| == PadStart(|bits|, capacity)
    ensures forall i :: |bits| <= i < |Terminate(bits, capacity)| ==> !Terminate(bits, capacity)[i]
  {
    var t := if |bits| + 4 <= capacity then bits + Falses(4) else bits;
    RoundUp(|t|);
  }

  lemma RoundUp(n: nat)
    ensures n + (8 - n % 8) % 8 == (n + 7) / 8 * 8
  {
  }

  lemma {:induction false} FillAt(bits: seq<bool>, capacity: nat, odd: bool, k: nat)
    requires |bits| + 8 * k + 8 <= capacity
    ensures var from := |bits| + 8 * k;
            from + 8 <= |Fill(bits, capacity, odd)|
            && Fill(bits, capacity, odd)[from..from + 8] == PadBits(odd == (k % 2 == 0))
    decreases k
  {
    FirstPad();
    SecondPad();
    hide NumBits, Fill, PadBits;
    var longer := bits + NumBits(if odd then 0x11 else 0xEC, 8);
    FillNext(bits, capacity, odd);
    var r := Fill(longer, capacity, !odd);
    if k == 0 {
      assert r[..|longer|][|bits|..] == longer[|bits|..];
      assert r[|bits|..|longer|] == longer[|bits|..];
    } else {
      FillAt(longer, capacity, !odd, k - 1);
    }
  }

  /** The terminator and the alignment are zero bits, and the pad codewords alternate from there to the end. */
  lemma PaddedStream(payloads: seq<seq<Byte>>, typeNumber: nat, capacity: nat)
    requires capacity % 8 == 0 && |StreamBits(payloads, typeNumber)| <= capacity
    ensures var stream := StreamBits(payloads, typeNumber);
            var final, start := FinalBits(payloads, typeNumber, capacity), PadStart(|stream|, capacity);
            && |stream| <= start <= |final| == capacity
            && final[..|stream|] == stream
            && (forall i :: |stream| <= i < start ==> !final[i])
            && (forall k: nat :: start + 8 * k + 8 <= capacity ==>
                  final[start + 8 * k..start + 8 * k + 8] == PadBits(k % 2 == 1))
  {
    hide StreamBits, PadBits, NumBits, Terminate, PadStart, Fill;
    var stream := StreamBits(payloads, typeNumber);
    var t := Terminate(stream, capacity);
    FinalBitsShape(payloads, typeNumber, capacity);
    TerminateShape(stream, capacity);
    TerminateIs(stream, capacity);
    PrefixOfPrefix(Fill(t, capacity, false), t, 0, |t|);
    forall k: nat | |t| + 8 * k + 8 <= capacity
      ensures FinalBits(payloads, typeNumber, capacity)[|t| + 8 * k..|t| + 8 * k + 8] == PadBits(k % 2 == 1)
    {
      FillAt(t, capacity, false, k);
    }
  }
}
