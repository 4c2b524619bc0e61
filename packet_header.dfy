/** The packed packet header: `int32 Size` at offset 0 followed by `int16 Id`
    at offset 4, six bytes with no padding, reinterpreted in place from the
    received bytes. The host is assumed little-endian, so the reinterpretation
    is a little-endian two's-complement decode. */
module PacketHeader {
  import opened Common

  /** Offset of the total-size field. */
  const SizeOffset: nat := 0
  /** Offset of the message identifier, right after the 4-byte size. */
  const IdOffset: nat := 4
  /** `sizeof(TCPPacketHeader)` under one-byte packing: 4 + 2. */
  const HeaderSize: nat := 6

  datatype TCPPacketHeader = TCPPacketHeader(size: int32, id: int16)

  function Pow256(n: nat): (r: nat)
    ensures r > 0
  {
    if n == 0 then 1 else 0x100 * Pow256(n - 1)
  }

  lemma Pow256Values()
    ensures Pow256(2) == 0x1_0000
    ensures Pow256(4) == 0x1_0000_0000
  {
  }

  /** Unsigned value of bytes read least significant first. */
  function LittleEndian(s: seq<byte>): (r: nat)
    ensures r < Pow256(|s|)
  {
    if s == [] then 0 else s[0] as nat + 0x100 * LittleEndian(s[1..])
  }

  /** The `n` bytes, least significant first, of an unsigned value below 256^n. */
  function ToLittleEndian(x: nat, n: nat): (r: seq<byte>)
    requires x < Pow256(n)
    ensures |r| == n
  {
    if n == 0 then [] else [(x % 0x100) as byte] + ToLittleEndian(x / 0x100, n - 1)
  }

  lemma {:induction false} LittleEndianOfToLittleEndian(x: nat, n: nat)
    requires x < Pow256(n)
    ensures LittleEndian(ToLittleEndian(x, n)) == x
  {
    if n > 0 {
      var r := ToLittleEndian(x, n);
      assert r[1..] == ToLittleEndian(x / 0x100, n - 1);
      LittleEndianOfToLittleEndian(x / 0x100, n - 1);
    }
  }

  lemma {:induction false} ToLittleEndianOfLittleEndian(s: seq<byte>)
    ensures ToLittleEndian(LittleEndian(s), |s|) == s
  {
    if s != [] {
      var v := LittleEndian(s);
      assert v % 0x100 == s[0] as int && v / 0x100 == LittleEndian(s[1..]);
      ToLittleEndianOfLittleEndian(s[1..]);
    }
  }

  /** The four bytes that a native little-endian `int32` occupies. */
  function Int32Bytes(x: int32): (r: seq<byte>)
    ensures |r| == 4
  {
    Pow256Values();
    ToLittleEndian(if x < 0 then x as int + 0x1_0000_0000 else x as int, 4)
  }

  /** The `int32` whose native little-endian image is `b`. */
  function Int32Of(b: seq<byte>): int32
    requires |b| == 4
  {
    Pow256Values();
    var u := LittleEndian(b);
    if u < 0x8000_0000 then u as int32 else (u - 0x1_0000_0000) as int32
  }

  /** The two bytes that a native little-endian `int16` occupies. */
  function Int16Bytes(x: int16): (r: seq<byte>)
    ensures |r| == 2
  {
    Pow256Values();
    ToLittleEndian(if x < 0 then x as int + 0x1_0000 else x as int, 2)
  }

  /** The `int16` whose native little-endian image is `b`. */
  function Int16Of(b: seq<byte>): int16
    requires |b| == 2
  {
    Pow256Values();
    var u := LittleEndian(b);
    if u < 0x8000 then u as int16 else (u - 0x1_0000) as int16
  }

  lemma Int32RoundTrip(x: int32, b: seq<byte>)
    requires |b| == 4
    ensures Int32Of(Int32Bytes(x)) == x
    ensures Int32Bytes(Int32Of(b)) == b
  {
    Pow256Values();
    LittleEndianOfToLittleEndian(if x < 0 then x as int + 0x1_0000_0000 else x as int, 4);
    ToLittleEndianOfLittleEndian(b);
  }

  lemma Int16RoundTrip(x: int16, b: seq<byte>)
    requires |b| == 2
    ensures Int16Of(Int16Bytes(x)) == x
    ensures Int16Bytes(Int16Of(b)) == b
  {
    Pow256Values();
    LittleEndianOfToLittleEndian(if x < 0 then x as int + 0x1_0000 else x as int, 2);
    ToLittleEndianOfLittleEndian(b);
  }

  /** The wire image of a header: `Size` in bytes 0..3, `Id` in bytes 4..5. */
  function EncodeHeader(h: TCPPacketHeader): (r: seq<byte>)
    ensures |r| == HeaderSize
    ensures r[SizeOffset..IdOffset] == Int32Bytes(h.size)
    ensures r[IdOffset..HeaderSize] == Int16Bytes(h.id)
  {
    Int32Bytes(h.size) + Int16Bytes(h.id)
  }

  /** `sizeof(TCPPacketHeader)`, which `GetHeaderSize()` is taken to return:
      the header's fields laid end to end, with `Id` right after `Size`. */
  lemma HeaderSizeIsPacked(h: TCPPacketHeader)
    ensures IdOffset == SizeOffset + |Int32Bytes(h.size)|
    ensures HeaderSize == IdOffset + |Int16Bytes(h.id)|
  {
  }

  /** The header read in place from the start of a received byte region: the
      fields whose little-endian images are bytes 0..3 and 4..5. */
  function DecodeHeader(b: seq<byte>): (r: TCPPacketHeader)
    requires |b| >= HeaderSize
    ensures Int32Bytes(r.size) == b[SizeOffset..IdOffset]
    ensures Int16Bytes(r.id) == b[IdOffset..HeaderSize]
  {
    Int32RoundTrip(0, b[SizeOffset..IdOffset]);
    Int16RoundTrip(0, b[IdOffset..HeaderSize]);
    TCPPacketHeader(Int32Of(b[SizeOffset..IdOffset]), Int16Of(b[IdOffset..HeaderSize]))
  }

  /** `ReadTotalSize`, taken to read the `Size` field of the header at the
      start of `b`: the total message length, header included, that it
      declares. It is the `int32` whose little-endian image is bytes 0..3. */
  function ReadTotalSize(b: seq<byte>): (r: int)
    requires |b| >= HeaderSize
    ensures -0x8000_0000 <= r < 0x8000_0000
    ensures Int32Bytes(r as int32) == b[SizeOffset..IdOffset]
  {
    DecodeHeader(b).size as int
  }

  /** Decoding an encoded header gives back the header, whatever payload follows. */
  lemma HeaderRoundTrip(h: TCPPacketHeader, payload: seq<byte>)
    ensures |EncodeHeader(h) + payload| >= HeaderSize
    ensures DecodeHeader(EncodeHeader(h) + payload) == h
  {
    var b := EncodeHeader(h) + payload;
    assert b[SizeOffset..IdOffset] == Int32Bytes(h.size);
    assert b[IdOffset..HeaderSize] == Int16Bytes(h.id);
    Int32RoundTrip(h.size, b[SizeOffset..IdOffset]);
    Int16RoundTrip(h.id, b[IdOffset..HeaderSize]);
  }

  /** Every six-byte prefix is the image of exactly the header decoded from it:
      the layout has no padding and no unused bits. */
  lemma HeaderEncodeDecode(b: seq<byte>)
    requires |b| >= HeaderSize
    ensures EncodeHeader(DecodeHeader(b)) == b[..HeaderSize]
  {
    Int32RoundTrip(0, b[SizeOffset..IdOffset]);
    Int16RoundTrip(0, b[IdOffset..HeaderSize]);
    assert b[..HeaderSize] == b[SizeOffset..IdOffset] + b[IdOffset..HeaderSize];
  }

  /** Decoding looks at the first six bytes only; later payload bytes never
      change the decoded header. Size depends on bytes 0..3, Id on bytes 4..5. */
  lemma DecodeReadsPrefixOnly(b1: seq<byte>, b2: seq<byte>)
    requires |b1| >= HeaderSize && |b2| >= HeaderSize
    ensures b1[SizeOffset..IdOffset] == b2[SizeOffset..IdOffset] ==> DecodeHeader(b1).size == DecodeHeader(b2).size
    ensures b1[IdOffset..HeaderSize] == b2[IdOffset..HeaderSize] ==> DecodeHeader(b1).id == DecodeHeader(b2).id
    ensures b1[..HeaderSize] == b2[..HeaderSize] ==> DecodeHeader(b1) == DecodeHeader(b2)
  {
  }
}
