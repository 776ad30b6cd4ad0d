/** The growing bit buffer of the encoder. */
module BitBuffer {
  import opened Gf2
  import opened Gf256
  import opened Bits

  class QRBitBuffer {
    var buffer: seq<Byte>
    var length: nat
    ghost var Contents: seq<bool> // the bits put so far

    ghost predicate Valid()
      reads this
    {
      length == |Contents| && buffer == Pack(Contents)
    }

    constructor ()
      ensures Valid() && Contents == []
    {
      buffer := [];
      length := 0;
      Contents := [];
    }

    method GetLengthInBits() returns (n: nat)
      requires Valid()
      ensures n == |Contents|
    {
      n := length;
    }

    method Put(num: nat, count: nat)
      requires Valid()
      modifies this
      ensures Valid() && Contents == old(Contents) + NumBits(num, count)
    {
      hide Pack, NumBits;
      for i := 0 to count
        invariant Valid() && Contents == old(Contents) + NumBits(num, count)[..i]
      {
        NumBitsAt(num, count, i);
        PutBit(Shr(num, count - i - 1) % 2 == 1);
        assert NumBits(num, count)[..i + 1] == NumBits(num, count)[..i] + [NumBits(num, count)[i]];
      }
      assert NumBits(num, count)[..count] == NumBits(num, count);
    }

    method PutBit(bit: bool)
      requires Valid()
      modifies this
      ensures Valid() && Contents == old(Contents) + [bit]
    {
      var bufIndex := length / 8;
      AppendBit(Contents, bit);
      Contents := Contents + [bit];
      if |buffer| <= bufIndex {
        buffer := buffer + [0];
      }
      if bit {
        buffer := buffer[bufIndex := Or(buffer[bufIndex], Shl(1, 7 - length % 8))];
      }
      length := length + 1;
    }
  }

  /** The bytes with room for one more bit: a fresh zero byte is added if the last one is full. */
  function Grown(bits: seq<bool>): (r: seq<Byte>)
  {
    if |Pack(bits)| <= |bits| / 8 then Pack(bits) + [0] else Pack(bits)
  }

  lemma GrownFull(bits: seq<bool>, i: nat)
    requires |bits| == 8 * i
    ensures Grown(bits) == Pack(bits)[..i] + [PackByte(bits[8 * i..])]
  {
    hide Pack, PackByte;
    EmptyByte();
    assert bits[8 * i..] == [];
  }

  lemma GrownPartial(bits: seq<bool>, i: nat, k: nat)
    requires |bits| == 8 * i + k && 0 < k < 8
    ensures Grown(bits) == Pack(bits)[..i] + [PackByte(bits[8 * i..])]
  {
    hide Pack, PackByte;
    PackLast(bits);
    assert |Pack(bits)| == i + 1;
  }

  lemma GrownPacking(bits: seq<bool>)
    ensures Grown(bits) == Pack(bits)[..|bits| / 8] + [PackByte(bits[|bits| / 8 * 8..])]
  {
    hide Pack, PackByte, Grown;
    if |bits| % 8 == 0 {
      GrownFull(bits, |bits| / 8);
    } else {
      GrownPartial(bits, |bits| / 8, |bits| % 8);
    }
  }

  /** What one appended bit does to the packed bytes: possibly one bit is set in the last byte. */
  lemma AppendBit(bits: seq<bool>, bit: bool)
    ensures var i := |bits| / 8;
            var grown := Grown(bits);
            && |grown| == i + 1
            && Or(grown[i], Shl(1, 7 - |bits| % 8)) < 256
            && Pack(bits + [bit]) == if bit then grown[i := Or(grown[i], Shl(1, 7 - |bits| % 8))] else grown
  {
    hide Pack, PackByte, Or, Shl;
    var tail := bits[|bits| / 8 * 8..];
    GrownPacking(bits);
    hide Grown;
    PackSnoc(bits, bit);
    PackByteSnoc(tail, bit);
    PackByteSnoc(tail, true);
  }

  lemma EmptyByte()
    ensures PackByte([]) == 0
  {
    assert FromBits([]) == 0;
    ZeroShifted(8);
  }

  lemma {:induction false} ZeroShifted(k: nat)
    ensures Shl(0, k) == 0
  {
    if k > 0 {
      ZeroShifted(k - 1);
    }
  }
}
