/** Text as the bytes of an 8-bit-byte segment.  The encoder walks 16-bit code units; it is compared
    with UTF-8 (section 3 of RFC 3629) on well-formed UTF-16 text. */
module EightBitByte {
  import opened Gf256
  import opened Bits
  import opened BitBuffer

  type Unit = u: nat | u < 0x10000

  const MODE_8BIT_BYTE: nat := 4

  /** The bytes of one character code, with the encoder's strict comparisons. */
  function CodeBytes(code: nat): (r: seq<Byte>)
    ensures 1 <= |r| <= 4
  {
    if code > 0x10000 then
      [0xF0 + code / 0x40000 % 8, 0x80 + code / 0x1000 % 64, 0x80 + code / 0x40 % 64, 0x80 + code % 64]
    else if code > 0x800 then
      [0xE0 + code / 0x1000 % 16, 0x80 + code / 0x40 % 64, 0x80 + code % 64]
    else if code > 0x7F then
      [0xC0 + code / 0x40 % 32, 0x80 + code % 64]
    else
      [code]
  }

  function EncodeText(text: seq<Unit>): (r: seq<Byte>)
  {
    if text == [] then [] else CodeBytes(text[0]) + EncodeText(text[1..])
  }

  /** The unit at the front of an encoding and the number of bytes it takes.  The two-byte form of
      zero is not needed for zero, and stands for 0x800. */
  function FirstUnit(bytes: seq<Byte>): (r: (Unit, nat))
    requires bytes != []
    ensures r.1 > 0
  {
    var b: int := bytes[0];
    var second: int := if |bytes| > 1 then bytes[1] % 64 else 0;
    var third: int := if |bytes| > 2 then bytes[2] % 64 else 0;
    if b < 0x80 then (b, 1)
    else if b < 0xE0 then (if b % 32 * 64 + second == 0 then 0x800 else b % 32 * 64 + second, 2)
    else (b % 16 * 4096 + second * 64 + third, 3)
  }

  function DecodeText(bytes: seq<Byte>): (r: seq<Unit>)
    decreases |bytes|
  {
    if bytes == [] then []
    else
      var (u, n) := FirstUnit(bytes);
      [u] + (if n >= |bytes| then [] else DecodeText(bytes[n..]))
  }

  lemma SixBitDigits(u: Unit)
    ensures u / 4096 < 16 && u / 4096 == u / 64 / 64 && u == u / 64 / 64 * 4096 + u / 64 % 64 * 64 + u % 64
  {
  }

  lemma FirstUnitDecodes(u: Unit, rest: seq<Byte>)
    ensures FirstUnit(CodeBytes(u) + rest) == (u, |CodeBytes(u)|)
  {
    if u > 0x800 {
      DecodesThree(u, rest);
    } else if u > 0x7F {
      DecodesTwo(u, rest);
    }
  }

  lemma DecodesThree(u: Unit, rest: seq<Byte>)
    requires u > 0x800
    ensures FirstUnit(CodeBytes(u) + rest) == (u, 3) && |CodeBytes(u)| == 3
  {
    SixBitDigits(u);
    hide FirstUnit;
    ThreeBytes(u / 4096, u / 64 % 64, u % 64, rest);
  }

  lemma DecodesTwo(u: Unit, rest: seq<Byte>)
    requires 0x7F < u <= 0x800
    ensures FirstUnit(CodeBytes(u) + rest) == (u, 2) && |CodeBytes(u)| == 2
  {
    hide FirstUnit;
    assert u == u / 64 * 64 + u % 64;
    TwoBytes(u / 64 % 32, u % 64, rest);
  }

  lemma ThreeBytes(a: nat, b: nat, c: nat, rest: seq<Byte>)
    requires a < 16 && b < 64 && c < 64
    ensures FirstUnit([0xE0 + a, 0x80 + b, 0x80 + c] + rest) == (a * 4096 + b * 64 + c, 3)
  {
    assert (0xE0 + a) % 16 == a && (0x80 + b) % 64 == b && (0x80 + c) % 64 == c;
  }

  lemma TwoBytes(a: nat, b: nat, rest: seq<Byte>)
    requires a < 32 && b < 64
    ensures FirstUnit([0xC0 + a, 0x80 + b] + rest) == (if a == b == 0 then 0x800 else a * 64 + b, 2)
  {
    assert (0xC0 + a) % 32 == a && (0x80 + b) % 64 == b;
  }

  /** The encoding is uniquely decodable on every sequence of 16-bit units, surrogates included. */
  lemma {:induction false} TextRoundTrip(text: seq<Unit>)
    ensures DecodeText(EncodeText(text)) == text
  {
    hide CodeBytes, FirstUnit;
    if text != [] {
      var rest := EncodeText(text[1..]);
      var bytes := CodeBytes(text[0]) + rest;
      FirstUnitDecodes(text[0], rest);
      TextRoundTrip(text[1..]);
      assert bytes[|CodeBytes(text[0])|..] == rest;
      if rest == [] {
        assert text[1..] == [];
      }
    }
  }

  predicate IsHigh(u: Unit)
  {
    0xD800 <= u <= 0xDBFF
  }

  predicate IsLow(u: Unit)
  {
    0xDC00 <= u <= 0xDFFF
  }

  /** Surrogates come in pairs, a high one before a low one. */
  predicate WellFormed(text: seq<Unit>)
  {
    if text == [] then true
    else if IsHigh(text[0]) then |text| > 1 && IsLow(text[1]) && WellFormed(text[2..])
    else !IsLow(text[0]) && WellFormed(text[1..])
  }

  function PairValue(high: Unit, low: Unit): (c: nat)
    requires IsHigh(high) && IsLow(low)
    ensures 0x10000 <= c < 0x110000
  {
    0x10000 + (high - 0xD800) * 0x400 + (low - 0xDC00)
  }

  /** UTF-8 as the standard defines it. */
  function Utf8(c: nat): (r: seq<Byte>)
    requires c < 0x110000
  {
    if c <= 0x7F then [c]
    else if c <= 0x7FF then [0xC0 + c / 64, 0x80 + c % 64]
    else if c <= 0xFFFF then [0xE0 + c / 4096, 0x80 + c / 64 % 64, 0x80 + c % 64]
    else [0xF0 + c / 262144, 0x80 + c / 4096 % 64, 0x80 + c / 64 % 64, 0x80 + c % 64]
  }

  function Utf8Text(text: seq<Unit>): (r: seq<Byte>)
    requires WellFormed(text)
  {
    if text == [] then []
    else if IsHigh(text[0]) then Utf8(PairValue(text[0], text[1])) + Utf8Text(text[2..])
    else Utf8(text[0]) + Utf8Text(text[1..])
  }

  /** A unit that is encoded as UTF-8 says. */
  predicate Common(u: Unit)
  {
    !IsHigh(u) && !IsLow(u) && u != 0x800
  }

  lemma FirstByte(u: Unit)
    ensures CodeBytes(u)[0] == if u == 0x800 then 0xC0 else if IsHigh(u) then 0xED else Utf8(u)[0]
    ensures u != 0x800 ==> CodeBytes(u) == Utf8(u)
  {
  }

  /** The encoding is UTF-8 exactly when the text holds no surrogate pair and no unit 0x800. */
  lemma {:induction false} AgreesWithUtf8(text: seq<Unit>)
    requires WellFormed(text)
    ensures EncodeText(text) == Utf8Text(text) <==> forall u :: u in text ==> Common(u)
  {
    if text != [] {
      FirstByte(text[0]);
      assert text[0] in text && text == [text[0]] + text[1..];
      if IsHigh(text[0]) {
        PairFirstByte(text[0], text[1]);
        hide CodeBytes, Utf8, PairValue;
        assert EncodeText(text)[0] != Utf8Text(text)[0];
      } else if text[0] == 0x800 {
        assert Utf8(0x800)[0] == 0xE0;
        hide CodeBytes, Utf8;
        assert EncodeText(text)[0] != Utf8Text(text)[0];
      } else {
        hide CodeBytes, Utf8;
        AgreesWithUtf8(text[1..]);
        CancelPrefix(CodeBytes(text[0]), EncodeText(text[1..]), Utf8Text(text[1..]));
      }
    }
  }

  lemma PairFirstByte(high: Unit, low: Unit)
    requires IsHigh(high) && IsLow(low)
    ensures Utf8(PairValue(high, low))[0] >= 0xF0
  {
  }

  lemma CancelPrefix(a: seq<Byte>, x: seq<Byte>, y: seq<Byte>)
    ensures a + x == a + y <==> x == y
  {
    assert (a + x)[|a|..] == x && (a + y)[|a|..] == y;
  }

  datatype QR8bitByte = QR8bitByte(mode: nat, parsedData: seq<Byte>) {

    function GetLength(): (n: nat)
    {
      |parsedData|
    }

    method Write(buffer: QRBitBuffer)
      requires buffer.Valid()
      modifies buffer
      ensures buffer.Valid() && buffer.Contents == old(buffer.Contents) + BytesToBits(parsedData)
    {
      hide NumBits;
      for i := 0 to |parsedData|
        invariant buffer.Valid()
        invariant buffer.Contents == old(buffer.Contents) + BytesToBits(parsedData[..i])
      {
        buffer.Put(parsedData[i], 8);
        BytesToBitsSnoc(parsedData[..i], parsedData[i]);
        assert parsedData[..i + 1] == parsedData[..i] + [parsedData[i]];
      }
      assert parsedData[..|parsedData|] == parsedData;
    }
  }

  lemma BytesToBitsSnoc(a: seq<Byte>, b: Byte)
    ensures BytesToBits(a + [b]) == BytesToBits(a) + NumBits(b, 8)
  {
    BytesToBitsConcat(a, [b]);
    assert BytesToBits([b]) == ByteBits(b) + BytesToBits([]);
  }

  lemma {:induction false} EncodeTextSnoc(a: seq<Unit>, u: Unit)
    ensures EncodeText(a + [u]) == EncodeText(a) + CodeBytes(u)
  {
    hide CodeBytes;
    if a == [] {
      assert EncodeText([u]) == CodeBytes(u) + EncodeText([]);
      assert a + [u] == [u];
    } else {
      EncodeTextSnoc(a[1..], u);
      assert (a + [u])[1..] == a[1..] + [u];
    }
  }

  method NewEightBitByte(data: seq<Unit>) returns (entry: QR8bitByte)
    ensures entry == QR8bitByte(MODE_8BIT_BYTE, EncodeText(data))
  {
    var parsedData: seq<Byte> := [];
    for i := 0 to |data|
      invariant parsedData == EncodeText(data[..i])
    {
      EncodeTextSnoc(data[..i], data[i]);
      assert data[..i + 1] == data[..i] + [data[i]];
      parsedData := parsedData + CodeBytes(data[i]);
    }
    assert data[..|data|] == data;
    entry := QR8bitByte(MODE_8BIT_BYTE, parsedData);
  }
}
