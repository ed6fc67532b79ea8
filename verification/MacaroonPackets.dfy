/**
 The packets of a macaroon's binary form (macaroon.v1/packet.go).

 A packet is four lower-case hexadecimal digits with its whole length, a field name, a space, the
 payload and a newline. Packets live inside one byte string and are referred to by position.
 */
module MacaroonPackets {
  import opened Base

  const MAX_PACKET_LEN: nat := 0xffff
  const SPACE: byte := 32

  /** A reference into the data; all zero when there is no packet. */
  datatype Packet = Packet(start: nat, totalLen: nat, headerLen: nat)

  const NO_PACKET := Packet(0, 0, 0)

  /** What a parser does: it returns a value, returns an error, or slices out of range. */
  datatype Parsing<+T> = Parsed(value: T) | Failed | Panicked

  predicate Inside(data: bytes, p: Packet)
  {
    p.totalLen == 0 || (5 <= p.headerLen < p.totalLen && p.start + p.totalLen <= |data|)
  }

  function DataBytes(data: bytes, p: Packet): bytes
    requires Inside(data, p)
  {
    if p.totalLen == 0 then [] else data[p.start + p.headerLen..p.start + p.totalLen - 1]
  }

  function FieldName(data: bytes, p: Packet): bytes
    requires Inside(data, p)
  {
    if p.totalLen == 0 then [] else data[p.start + 4..p.start + p.headerLen - 1]
  }

  // ------------------------------------------------------------------ sizes

  function AsciiHex(b: byte): Option<nat>
  {
    if 48 <= b <= 57 then Some(b - 48) else if 97 <= b <= 102 then Some(b - 87) else None
  }

  function AppendSize(size: nat): bytes
    requires size <= MAX_PACKET_LEN
  {
    [HexDigit(size / 4096), HexDigit(size / 256 % 16), HexDigit(size / 16 % 16), HexDigit(size % 16)]
  }

  function ParseSize(data: bytes): Option<nat>
    requires 4 <= |data|
  {
    var d0, d1, d2, d3 := AsciiHex(data[0]), AsciiHex(data[1]), AsciiHex(data[2]), AsciiHex(data[3]);
    if d0.Some? && d1.Some? && d2.Some? && d3.Some?
    then Some(4096 * d0.value + 256 * d1.value + 16 * d2.value + d3.value)
    else None
  }

  lemma HexDigitRoundTrip(n: nat, b: byte)
    requires n < 16
    ensures AsciiHex(HexDigit(n)) == Some(n)
    ensures AsciiHex(b) == Some(n) ==> b == HexDigit(n)
  {
  }

  lemma Recompose(size: nat)
    ensures 4096 * (size / 4096) + 256 * (size / 256 % 16) + 16 * (size / 16 % 16) + size % 16 == size
  {
    var a := size / 16;
    var b := a / 16;
    assert size / 256 == b && size / 4096 == b / 16;
  }

  lemma SizeParses(data: bytes, size: nat)
    requires 4 <= |data| && size <= MAX_PACKET_LEN && data[..4] == AppendSize(size)
    ensures ParseSize(data) == Some(size)
  {
    hide AsciiHex, HexDigit;
    Recompose(size);
    assert data[0] == data[..4][0] && data[1] == data[..4][1] && data[2] == data[..4][2] && data[3] == data[..4][3];
    HexDigitRoundTrip(size / 4096, 0);
    HexDigitRoundTrip(size / 256 % 16, 0);
    HexDigitRoundTrip(size / 16 % 16, 0);
    HexDigitRoundTrip(size % 16, 0);
  }

  /** Sizes up to the limit read back, and only four lower-case digits read as a size. */
  lemma SizeRoundTrip(data: bytes, size: nat)
    requires 4 <= |data|
    ensures ParseSize(data) == Some(size) <==> size <= MAX_PACKET_LEN && data[..4] == AppendSize(size)
  {
    hide AsciiHex, HexDigit;
    if size <= MAX_PACKET_LEN && data[..4] == AppendSize(size) {
      SizeParses(data, size);
    }
    if ParseSize(data) == Some(size) {
      var d0, d1, d2, d3 := AsciiHex(data[0]).value, AsciiHex(data[1]).value, AsciiHex(data[2]).value, AsciiHex(data[3]).value;
      HexBelow(data[0]);
      HexBelow(data[1]);
      HexBelow(data[2]);
      HexBelow(data[3]);
      DigitsOf(d0, d1, d2, d3);
      HexDigitRoundTrip(d0, data[0]);
      HexDigitRoundTrip(d1, data[1]);
      HexDigitRoundTrip(d2, data[2]);
      HexDigitRoundTrip(d3, data[3]);
      assert data[..4] == AppendSize(size);
    }
  }

  lemma HexBelow(b: byte)
    ensures AsciiHex(b).Some? ==> AsciiHex(b).value < 16
  {
  }

  lemma OneDigit(high: nat, low: nat)
    requires low < 16
    ensures (16 * high + low) / 16 == high && (16 * high + low) % 16 == low
  {
  }

  lemma DigitsOf(d0: nat, d1: nat, d2: nat, d3: nat)
    requires d0 < 16 && d1 < 16 && d2 < 16 && d3 < 16
    ensures var size := 4096 * d0 + 256 * d1 + 16 * d2 + d3;
            size <= MAX_PACKET_LEN
            && size / 4096 == d0 && size / 256 % 16 == d1 && size / 16 % 16 == d2 && size % 16 == d3
  {
    var size, two, three := 4096 * d0 + 256 * d1 + 16 * d2 + d3, 16 * d0 + d1, 256 * d0 + 16 * d1 + d2;
    OneDigit(three, d3);
    OneDigit(two, d2);
    OneDigit(d0, d1);
    assert size / 256 == size / 16 / 16 && size / 4096 == size / 16 / 16 / 16;
  }

  // ------------------------------------------------------------------ packets

  function PacketSize(field: bytes, payload: bytes): nat
  {
    4 + |field| + 1 + |payload| + 1
  }

  function RawPacket(field: bytes, payload: bytes): (r: bytes)
    requires PacketSize(field, payload) <= MAX_PACKET_LEN
    ensures |r| == PacketSize(field, payload)
  {
    AppendSize(PacketSize(field, payload)) + field + [SPACE] + payload + [LF]
  }

  /** The reference to a packet written at a position. */
  function PacketRef(at: nat, field: bytes, payload: bytes): Packet
  {
    Packet(at, PacketSize(field, payload), 4 + |field| + 1)
  }

  /** rawAppendPacket: None when the packet is too big. */
  function RawAppendPacket(buf: bytes, field: bytes, payload: bytes): Option<(bytes, Packet)>
  {
    if PacketSize(field, payload) > MAX_PACKET_LEN then None
    else Some((buf + RawPacket(field, payload), PacketRef(|buf|, field, payload)))
  }

  /** parsePacket. A declared size below four makes the slice of the body run out of range. */
  function ParsePacket(data: bytes, start: nat): (r: Parsing<Packet>)
    requires start <= |data|
    ensures r.Parsed? ==> Inside(data, r.value) && r.value.start == start && r.value.totalLen >= 7
  {
    if |data| - start < 6 then Failed
    else match ParseSize(data[start..])
      case None => Failed
      case Some(plen) =>
        if plen > |data| - start then Failed
        else if plen < 4 then Panicked
        else
          var body := data[start + 4..start + plen];
          var i := IndexByte(body, SPACE);
          if i <= 0 then Failed
          else if body[|body| - 1] != LF then Failed
          else Parsed(Packet(start, plen, 4 + i + 1))
  }

  /** The data holds this packet at this position. */
  predicate PacketAt(data: bytes, at: nat, field: bytes, payload: bytes)
  {
    && PacketSize(field, payload) <= MAX_PACKET_LEN
    && at + PacketSize(field, payload) <= |data|
    && data[at..at + PacketSize(field, payload)] == RawPacket(field, payload)
  }

  predicate FieldLike(field: bytes)
  {
    field != [] && SPACE !in field
  }

  lemma Slices(data: bytes, at: nat, i: nat, j: nat, n: nat)
    requires at + n <= |data| && i <= j <= n
    ensures data[at + i..at + j] == data[at..at + n][i..j]
  {
    var part := data[at..at + n];
    forall k | 0 <= k < j - i
      ensures data[at + i..at + j][k] == part[i..j][k]
    {
      assert part[i..j][k] == part[i + k] == data[at + (i + k)];
    }
  }

  lemma RawParts(field: bytes, payload: bytes)
    requires PacketSize(field, payload) <= MAX_PACKET_LEN
    ensures var raw, n := RawPacket(field, payload), PacketSize(field, payload);
            && raw[..4] == AppendSize(n) && raw[4..n] == field + [SPACE] + (payload + [LF])
            && raw[4..4 + |field|] == field && raw[5 + |field|..n - 1] == payload
  {
    hide AppendSize;
  }

  /** A packet in the data is parsed where it stands, whatever surrounds it, and its parts read back. */
  lemma PacketParses(data: bytes, at: nat, field: bytes, payload: bytes)
    requires FieldLike(field) && PacketAt(data, at, field, payload)
    ensures ParsePacket(data, at) == Parsed(PacketRef(at, field, payload))
    ensures FieldName(data, PacketRef(at, field, payload)) == field
    ensures DataBytes(data, PacketRef(at, field, payload)) == payload
  {
    hide ParseSize, AppendSize, IndexByte, RawPacket;
    var n := PacketSize(field, payload);
    var raw := RawPacket(field, payload);
    RawParts(field, payload);
    Slices(data, at, 0, 4, n);
    Slices(data, at, 4, n, n);
    Slices(data, at, 4, 4 + |field|, n);
    Slices(data, at, 5 + |field|, n - 1, n);
    assert data[at..][..4] == data[at..at + 4] == raw[..4] == AppendSize(n);
    SizeRoundTrip(data[at..], n);
    var body := data[at + 4..at + n];
    assert body == field + [SPACE] + (payload + [LF]);
    IndexByteUnique(field, SPACE, payload + [LF]);
  }

  /** Nothing else parses: an accepted packet is the one its name and payload would be written as. */
  lemma ParsedIsAPacket(data: bytes, at: nat)
    requires at <= |data| && ParsePacket(data, at).Parsed?
    ensures var p := ParsePacket(data, at).value;
            FieldLike(FieldName(data, p))
            && PacketAt(data, at, FieldName(data, p), DataBytes(data, p))
            && p == PacketRef(at, FieldName(data, p), DataBytes(data, p))
  {
    hide ParseSize, AppendSize, IndexByte, RawPacket;
    var p := ParsePacket(data, at).value;
    var plen := p.totalLen;
    SizeRoundTrip(data[at..], plen);
    assert data[at..][..4] == data[at..at + 4];
    var body := data[at + 4..at + plen];
    var i := IndexByte(body, SPACE);
    var field, payload := FieldName(data, p), DataBytes(data, p);
    Slices(data, at + 4, 0, i, plen - 4);
    Slices(data, at + 4, i + 1, plen - 5, plen - 4);
    ParsedBody(body, i, field, payload);
    assert data[at..at + plen] == data[at..at + 4] + body;
    RawOf(field, payload, data[at..at + 4], body);
  }

  lemma ParsedBody(body: bytes, i: nat, field: bytes, payload: bytes)
    requires 0 < i < |body| - 1 && i == IndexByte(body, SPACE) && body[|body| - 1] == LF
    requires field == body[..i] && payload == body[i + 1..|body| - 1]
    ensures FieldLike(field) && body == field + [SPACE] + payload + [LF]
  {
    hide IndexByte;
  }

  lemma RawOf(field: bytes, payload: bytes, size: bytes, body: bytes)
    requires PacketSize(field, payload) <= MAX_PACKET_LEN && size == AppendSize(PacketSize(field, payload))
    requires body == field + [SPACE] + payload + [LF]
    ensures size + body == RawPacket(field, payload)
  {
    hide AppendSize;
  }

  /** parsePacket inverts rawAppendPacket, up to the largest size, whatever follows. */
  lemma PacketRoundTrip(buf: bytes, field: bytes, payload: bytes, rest: bytes)
    requires FieldLike(field)
    ensures match RawAppendPacket(buf, field, payload)
            case None => PacketSize(field, payload) > 0xffff
            case Some((out, p)) =>
              && ParsePacket(out + rest, |buf|) == Parsed(p)
              && FieldName(out + rest, p) == field
              && DataBytes(out + rest, p) == payload
              && out[..|buf|] == buf
  {
    if PacketSize(field, payload) <= MAX_PACKET_LEN {
      var raw := RawPacket(field, payload);
      var data := buf + raw + rest;
      assert data[|buf|..|buf| + |raw|] == raw;
      PacketParses(data, |buf|, field, payload);
    }
  }

  /** In literal characters: four digits of the whole length, the field, a space, the payload and a newline. */
  lemma PacketIs(field: bytes, payload: bytes)
    requires PacketSize(field, payload) <= 0xffff
    ensures var n, digits := |field| + |payload| + 6, "0123456789abcdef";
            RawPacket(field, payload) == [digits[n / 4096] as int, digits[n / 256 % 16] as int, digits[n / 16 % 16] as int,
                                          digits[n % 16] as int] + field + Ascii(" ") + payload + Ascii("\n")
  {
    hide HexDigit;
    var n := PacketSize(field, payload);
    HexDigitIs(n / 4096);
    HexDigitIs(n / 256 % 16);
    HexDigitIs(n / 16 % 16);
    HexDigitIs(n % 16);
    assert Ascii(" ") == [SPACE] && Ascii("\n") == [LF];
  }

  /** parsePacket panics exactly on a length of less than its own four digits; any other data that does not hold a
      packet is an error. */
  lemma PacketPanicsExactly(data: bytes, at: nat)
    requires at <= |data|
    ensures ParsePacket(data, at) == Panicked
       <==> at + 6 <= |data| && data[at..at + 3] == Ascii("000") && 48 <= data[at + 3] <= 51
  {
    hide IndexByte;
    assert Ascii("000") == [48, 48, 48];
    if at + 6 <= |data| {
      assert data[at..at + 3] == [data[at], data[at + 1], data[at + 2]];
      assert data[at..][0] == data[at] && data[at..][1] == data[at + 1];
      assert data[at..][2] == data[at + 2] && data[at..][3] == data[at + 3];
    }
  }
}
