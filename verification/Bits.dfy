/** Bit strings, most significant bit first, and the numbers and bytes they stand for. */
module Bits {
  import opened Gf2
  import opened Gf256

  /** The low `length` bits of `num`, as `put` writes them. */
  function NumBits(num: nat, length: nat): (r: seq<bool>)
    ensures |r| == length
  {
    if length == 0 then [] else NumBits(num / 2, length - 1) + [num % 2 == 1]
  }

  /** The number a bit string denotes. */
  function FromBits(bits: seq<bool>): (r: nat)
    decreases |bits|
  {
    if bits == [] then 0
    else 2 * FromBits(bits[..|bits| - 1]) + (if bits[|bits| - 1] then 1 else 0)
  }

  lemma FromBitsSnoc(bits: seq<bool>, b: bool)
    ensures FromBits(bits + [b]) == 2 * FromBits(bits) + (if b then 1 else 0)
  {
    assert (bits + [b])[..|bits|] == bits;
  }

  lemma {:induction false} FromBitsBound(bits: seq<bool>)
    ensures FromBits(bits) < Pow2(|bits|)
    decreases |bits|
  {
    if bits != [] {
      FromBitsBound(bits[..|bits| - 1]);
    }
  }

  /** A number that fits is recovered from its bits. */
  lemma {:induction false} FromNumBits(num: nat, length: nat)
    requires num < Pow2(length)
    ensures FromBits(NumBits(num, length)) == num
  {
    if length > 0 {
      FromNumBits(num / 2, length - 1);
      FromBitsSnoc(NumBits(num / 2, length - 1), num % 2 == 1);
    }
  }

  lemma {:induction false} NumFromBits(bits: seq<bool>)
    ensures NumBits(FromBits(bits), |bits|) == bits
    decreases |bits|
  {
    if bits != [] {
      NumFromBits(bits[..|bits| - 1]);
    }
  }

  /** Bit i of the written form is the one `put` selects with a shift. */
  lemma {:induction false} NumBitsAt(num: nat, length: nat, i: nat)
    requires i < length
    ensures NumBits(num, length)[i] == (Shr(num, length - i - 1) % 2 == 1)
  {
    if i < length - 1 {
      NumBitsAt(num / 2, length - 1, i);
    }
  }

  function ByteBits(b: Byte): (r: seq<bool>)
    ensures |r| == 8
  {
    NumBits(b, 8)
  }

  /** All bits of a byte string. */
  function BytesToBits(bytes: seq<Byte>): (r: seq<bool>)
    ensures |r| == 8 * |bytes|
  {
    if bytes == [] then [] else ByteBits(bytes[0]) + BytesToBits(bytes[1..])
  }

  lemma {:induction false} BytesToBitsConcat(a: seq<Byte>, b: seq<Byte>)
    ensures BytesToBits(a + b) == BytesToBits(a) + BytesToBits(b)
  {
    if a == [] {
      assert a + b == b;
    } else {
      BytesToBitsConcat(a[1..], b);
      assert (a + b)[1..] == a[1..] + b && (a + b)[0] == a[0];
      assert BytesToBits(a + b) == ByteBits(a[0]) + BytesToBits(a[1..] + b);
      hide ByteBits;
      assert ByteBits(a[0]) + (BytesToBits(a[1..]) + BytesToBits(b)) == BytesToBits(a) + BytesToBits(b);
    }
  }

  /** Up to eight bits, left-aligned in a byte. */
  function PackByte(bits: seq<bool>): (r: Byte)
    requires |bits| <= 8
  {
    PackByteFits(bits);
    Shl(FromBits(bits), 8 - |bits|)
  }

  lemma PackByteFits(bits: seq<bool>)
    requires |bits| <= 8
    ensures Shl(FromBits(bits), 8 - |bits|) < 256
  {
    FromBitsBound(bits);
    ShlBounds(FromBits(bits), |bits|, 8 - |bits|);
    assert Pow2(8) == 256;
  }

  /** Bits packed into bytes, the last one padded on the right with zeros. */
  function Pack(bits: seq<bool>): (r: seq<Byte>)
    ensures |r| == (|bits| + 7) / 8
    decreases |bits|
  {
    if |bits| == 0 then []
    else if |bits| <= 8 then [PackByte(bits)]
    else [PackByte(bits[..8])] + Pack(bits[8..])
  }

  lemma {:induction false} UnpackPack(bits: seq<bool>)
    requires |bits| % 8 == 0
    ensures BytesToBits(Pack(bits)) == bits
    decreases |bits|
  {
    if |bits| > 0 {
      var first := bits[..8];
      NumFromBits(first);
      assert PackByte(first) == FromBits(first);
      if |bits| == 8 {
        assert bits == first;
        assert BytesToBits([PackByte(first)]) == ByteBits(PackByte(first)) + BytesToBits([]);
      } else {
        UnpackPack(bits[8..]);
        assert Pack(bits)[1..] == Pack(bits[8..]);
      }
    }
  }

  lemma ShiftInBit(h: nat, k: nat)
    ensures Shl(2 * h, k) == Shl(h, k + 1)
    ensures Shl(2 * h + 1, k) == Or(Shl(h, k + 1), Shl(1, k))
  {
    ShlDouble(h, k);
    ShlAdds(2 * h, k);
    assert Pow2(1) == 2;
    hide Shl, Or, Pow2;
    ShlBounds(1, 1, k);
    OrMerges(h, Shl(1, k), k + 1);
  }

  /** Setting the next free bit of a left-aligned byte. */
  lemma PackByteSnoc(bits: seq<bool>, b: bool)
    requires |bits| < 8
    ensures PackByte(bits + [b]) == if b then Or(PackByte(bits), Shl(1, 7 - |bits|)) else PackByte(bits)
  {
    hide Shl, Or, FromBits;
    FromBitsSnoc(bits, b);
    ShiftInBit(FromBits(bits), 7 - |bits|);
  }

  lemma {:induction false} ShlDouble(a: nat, k: nat)
    ensures Shl(2 * a, k) == Shl(a, k + 1)
  {
    if k > 0 {
      ShlDouble(a, k - 1);
    }
  }

  lemma {:induction false} ShlAdds(a: nat, k: nat)
    ensures Shl(a + 1, k) == Shl(a, k) + Shl(1, k)
  {
    if k > 0 {
      ShlAdds(a, k - 1);
    }
  }

  /** Adding one bit touches only the last byte. */
  lemma {:induction false} PackSnoc(bits: seq<bool>, b: bool)
    ensures var full := |bits| / 8 * 8;
            Pack(bits + [b]) == Pack(bits)[..|bits| / 8] + [PackByte(bits[full..] + [b])]
    decreases |bits|
  {
    if |bits| < 8 {
      assert bits[0..] == bits;
    } else if |bits| == 8 {
      assert (bits + [b])[..8] == bits && (bits + [b])[8..] == [b];
      assert bits[8..] + [b] == [b];
    } else {
      var rest := bits[8..];
      PackSnoc(rest, b);
      assert (bits + [b])[..8] == bits[..8] && (bits + [b])[8..] == rest + [b];
      assert bits[|bits| / 8 * 8..] == rest[|rest| / 8 * 8..];
      assert Pack(bits)[..|bits| / 8] == [PackByte(bits[..8])] + Pack(rest)[..|rest| / 8];
    }
  }

  /** The last, partial byte of a packing. */
  lemma {:induction false} PackLast(bits: seq<bool>)
    requires |bits| % 8 != 0
    ensures Pack(bits)[|bits| / 8] == PackByte(bits[|bits| / 8 * 8..])
    decreases |bits|
  {
    if |bits| < 8 {
      assert bits[0..] == bits;
    } else {
      PackLast(bits[8..]);
      assert bits[|bits| / 8 * 8..] == bits[8..][|bits[8..]| / 8 * 8..];
    }
  }
}
