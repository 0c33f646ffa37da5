/**
 * The staged image's header: a u32 declared length at offset 0 and a u16 CRC at
 * offset 4, read by utils_parse_uint32 and utils_parse_uint16 (main.c:64-66).
 * The helpers' bodies are not part of this model, so their byte order is a parameter.
 */
module Header {
  import opened Layout

  datatype ByteOrder = BigEndian | LittleEndian

  datatype Header = Header(size: u32, crc: u16)

  /** The n bytes at buf[ind..], most significant first under the given order. */
  function MsbFirst(buf: seq<byte>, ind: nat, n: nat, order: ByteOrder): (b: seq<byte>)
    requires ind + n <= |buf|
    ensures |b| == n
  {
    if order == BigEndian then buf[ind..ind + n]
    else seq(n, k requires 0 <= k < n => buf[ind + n - 1 - k])
  }

  /** The value of four bytes, most significant first. */
  function Be32(b: seq<byte>): u32
    requires |b| == 4
  {
    ((b[0] as int * 0x100 + b[1]) * 0x100 + b[2]) * 0x100 + b[3]
  }

  /** The value of two bytes, most significant first. */
  function Be16(b: seq<byte>): u16
    requires |b| == 2
  {
    b[0] as int * 0x100 + b[1]
  }

  /** Reads a u32 at buf[ind] and advances ind past it, as utils_parse_uint32 does. */
  function ParseUint32(buf: seq<byte>, ind: nat, order: ByteOrder): (r: (u32, nat))
    requires ind + 4 <= |buf|
    ensures r.1 == ind + 4
  {
    (Be32(MsbFirst(buf, ind, 4, order)), ind + 4)
  }

  /** Reads a u16 at buf[ind] and advances ind past it, as utils_parse_uint16 does. */
  function ParseUint16(buf: seq<byte>, ind: nat, order: ByteOrder): (r: (u16, nat))
    requires ind + 2 <= |buf|
    ensures r.1 == ind + 2
  {
    (Be16(MsbFirst(buf, ind, 2, order)), ind + 2)
  }

  /** The header fields, and the index where the payload starts, of a staged image. */
  function DecodeHeader(stage: seq<byte>, order: ByteOrder): (r: (Header, nat))
    requires HEADER_SIZE <= |stage|
    ensures r.1 == HEADER_SIZE
  {
    var (size, ind) := ParseUint32(stage, 0, order);
    var (crc, ind') := ParseUint16(stage, ind, order);
    (Header(size, crc), ind')
  }

  /** Bytes most significant first reordered into the given order; its own inverse. */
  function InOrder(msb: seq<byte>, order: ByteOrder): (b: seq<byte>)
    ensures |b| == |msb|
  {
    if order == BigEndian then msb
    else seq(|msb|, k requires 0 <= k < |msb| => msb[|msb| - 1 - k])
  }

  /** The four bytes of v, most significant first. */
  function Msb32(v: u32): (b: seq<byte>)
    ensures |b| == 4
  {
    var r3 := v / 0x100;
    var r2 := r3 / 0x100;
    [r2 / 0x100, r2 % 0x100, r3 % 0x100, v % 0x100]
  }

  /** The two bytes of v, most significant first. */
  function Msb16(v: u16): (b: seq<byte>)
    ensures |b| == 2
  {
    [v / 0x100, v % 0x100]
  }

  function EncodeUint32(v: u32, order: ByteOrder): (b: seq<byte>)
    ensures |b| == 4
  {
    InOrder(Msb32(v), order)
  }

  function EncodeUint16(v: u16, order: ByteOrder): (b: seq<byte>)
    ensures |b| == 2
  {
    InOrder(Msb16(v), order)
  }

  /** The header as the producer tool lays it out in front of the payload. */
  function EncodeHeader(h: Header, order: ByteOrder): (b: seq<byte>)
    ensures |b| == HEADER_SIZE
  {
    EncodeUint32(h.size, order) + EncodeUint16(h.crc, order)
  }

  /** Splitting a u32 into bytes and reading them back gives the u32. */
  lemma Be32OfMsb32(v: u32)
    ensures Be32(Msb32(v)) == v
  {
  }

  /** Reading four bytes as a u32 and splitting it again gives the bytes. */
  lemma Msb32OfBe32(b: seq<byte>)
    requires |b| == 4
    ensures Msb32(Be32(b)) == b
  {
    var hi := b[0] as int * 0x100 + b[1];
    DivMod256(hi * 0x100 + b[2], b[3]);
    DivMod256(hi, b[2]);
    DivMod256(b[0], b[1]);
  }

  /** Splitting off the low byte of x * 256 + d gives back x and d. */
  lemma DivMod256(x: nat, d: byte)
    ensures (x * 0x100 + d) / 0x100 == x && (x * 0x100 + d) % 0x100 == d
  {
  }

  lemma Be16OfMsb16(v: u16)
    ensures Be16(Msb16(v)) == v
  {
  }

  lemma Msb16OfBe16(b: seq<byte>)
    requires |b| == 2
    ensures Msb16(Be16(b)) == b
  {
    var c := Msb16(Be16(b));
    assert c[1] == b[1] && c[0] == b[0];
  }

  /** Reading n bytes in an order undoes laying them out in that order, and conversely. */
  lemma MsbFirstInOrder(buf: seq<byte>, ind: nat, n: nat, order: ByteOrder)
    requires ind + n <= |buf|
    ensures InOrder(MsbFirst(buf, ind, n, order), order) == buf[ind..ind + n]
  {
  }

  lemma InOrderMsbFirst(prefix: seq<byte>, msb: seq<byte>, rest: seq<byte>, order: ByteOrder)
    ensures MsbFirst(prefix + InOrder(msb, order) + rest, |prefix|, |msb|, order) == msb
  {
    var buf := prefix + InOrder(msb, order) + rest;
    assert buf[|prefix|..|prefix| + |msb|] == InOrder(msb, order);
  }

  /** Decoding a header the producer encoded gives back its fields, whatever payload follows. */
  lemma HeaderRoundTrip(h: Header, payload: seq<byte>, order: ByteOrder)
    ensures DecodeHeader(EncodeHeader(h, order) + payload, order) == (h, HEADER_SIZE)
  {
    var stage := EncodeHeader(h, order) + payload;
    var e32 := EncodeUint32(h.size, order);
    var e16 := EncodeUint16(h.crc, order);
    assert stage == [] + e32 + (e16 + payload);
    InOrderMsbFirst([], Msb32(h.size), e16 + payload, order);
    assert stage == e32 + e16 + payload;
    InOrderMsbFirst(e32, Msb16(h.crc), payload, order);
    Be32OfMsb32(h.size);
    Be16OfMsb16(h.crc);
  }

  /** The decoded fields determine the six header bytes: decoding loses nothing. */
  lemma HeaderBytesDetermined(stage: seq<byte>, order: ByteOrder)
    requires HEADER_SIZE <= |stage|
    ensures EncodeHeader(DecodeHeader(stage, order).0, order) == stage[..HEADER_SIZE]
  {
    var b := MsbFirst(stage, 0, 4, order);
    var c := MsbFirst(stage, 4, 2, order);
    Msb32OfBe32(b);
    Msb16OfBe16(c);
    MsbFirstInOrder(stage, 0, 4, order);
    MsbFirstInOrder(stage, 4, 2, order);
    assert stage[..HEADER_SIZE] == stage[0..4] + stage[4..6];
  }
}
