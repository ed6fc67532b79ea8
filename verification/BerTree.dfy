/**
 Packets of asn1-ber.v1 and the recursive reader (sections 8.1.1 to 8.1.5 of ITU-T X.690).

 A packet keeps its content octets and its children side by side, as the source does: for a
 constructed packet the octets are those AppendChild wrote for each child.
 */
module BerTree {
  import opened Base
  import opened BerPrimitives

  /** The dynamic Value of a packet, as far as the reader and the constructors set it. */
  datatype Value = NoValue | BoolValue(b: bool) | IntValue(i: int) | StringValue(s: bytes)

  datatype Packet = Packet(id: Identifier, value: Value, data: bytes, children: seq<Packet>)

  const TAG_EOC: nat := 0
  const TAG_BOOLEAN: nat := 1
  const TAG_INTEGER: nat := 2
  const TAG_OCTET_STRING: nat := 4
  const TAG_ENUMERATED: nat := 10
  const TAG_UTF8_STRING: nat := 12
  const TAG_SEQUENCE: nat := 16
  const TAG_PRINTABLE_STRING: nat := 19

  /** Packet.Bytes: identifier, length, content. */
  function Bytes(p: Packet): (r: bytes)
    ensures |r| >= 2 + |p.data|
  {
    EncodeIdentifier(p.id) + EncodeLength(|p.data|) + p.data
  }

  /** Packet.AppendChild: the child's octets are copied into the parent at that moment. */
  function AppendChild(p: Packet, child: Packet): Packet
  {
    p.(data := p.data + Bytes(child), children := p.children + [child])
  }

  function ConcatBytes(cs: seq<Packet>): bytes
  {
    if cs == [] then [] else Bytes(cs[0]) + ConcatBytes(cs[1..])
  }

  // ------------------------------------------------------------------ reading

  /** readHeader: identifier and length, and the bytes both took. */
  function DecodeHeader(s: bytes): (r: Decoded<(Identifier, int)>)
    ensures r.Ok? ==> 2 <= r.read <= |s|
  {
    match DecodeIdentifier(s)
    case Fail(e) => Fail(e)
    case Ok(id, n) =>
      match DecodeLength(s[n..])
      case Fail(e) => Fail(e)
      case Ok(length, m) =>
        if length == LENGTH_INDEFINITE && id.kind == Primitive then Fail(IndefinitePrimitive)
        else Ok((id, length), n + m)
  }

  method ReadHeader(src: Input) returns (r: Decoded<(Identifier, int)>)
    modifies src
    ensures r == DecodeHeader(old(src.data))
    ensures r.Ok? ==> src.data == old(src.data)[r.read..]
  {
    var i := ReadIdentifier(src);
    if i.Fail? {
      return Fail(i.error);
    }
    var l := ReadLength(src);
    if l.Fail? {
      return Fail(l.error);
    }
    if l.value == LENGTH_INDEFINITE && i.value.kind == Primitive {
      return Fail(IndefinitePrimitive);
    }
    return Ok((i.value, l.value), i.read + l.read);
  }

  /** parseInt64 with its error ignored: an integer of more than eight octets reads as zero. */
  function IntOrZero(content: bytes): int
  {
    if |content| > 8 then 0 else SignedValue(content)
  }

  /** The Value the reader derives from the content of a primitive packet. */
  function ContentValue(id: Identifier, content: bytes): Value
  {
    if id.class_ != Universal then NoValue
    else if id.tag == TAG_BOOLEAN then BoolValue(IntOrZero(content) != 0)
    else if id.tag == TAG_INTEGER || id.tag == TAG_ENUMERATED then IntValue(IntOrZero(content))
    else if id.tag == TAG_OCTET_STRING || id.tag == TAG_UTF8_STRING || id.tag == TAG_PRINTABLE_STRING then
      StringValue(content)
    else NoValue
  }

  /** isEOCPacket on a packet that was read: universal, primitive, tag zero, empty. */
  predicate IsEoc(p: Packet)
  {
    p.id == Identifier(Universal, Primitive, TAG_EOC) && p.data == [] && p.children == []
  }

  function DecodePacket(s: bytes): (r: Decoded<Packet>)
    ensures r.Ok? ==> 2 <= r.read <= |s|
    decreases |s|, 1
  {
    match DecodeHeader(s)
    case Fail(e) => Fail(e)
    case Ok((id, length), h) =>
      if id.kind == Constructed then
        match DecodeChildren(s[h..], length, 0)
        case Fail(e) => Fail(e)
        case Ok(cs, n) => Ok(Packet(id, NoValue, ConcatBytes(cs), cs), h + n)
      else if length < 0 then Fail(NegativeLength)
      else if |s| - h < length then Fail(UnexpectedEof)
      else
        var content := s[h..h + length];
        Ok(Packet(id, ContentValue(id, content), content, []), h + length)
  }

  /** The content loop of a constructed packet, from the point where contentRead octets are done. */
  function DecodeChildren(s: bytes, length: int, contentRead: nat): (r: Decoded<seq<Packet>>)
    ensures r.Ok? ==> r.read <= |s|
    decreases |s|, 2
  {
    if length != LENGTH_INDEFINITE && contentRead == length then Ok([], 0)
    else if length != LENGTH_INDEFINITE && contentRead > length then Fail(Overrun)
    else
      match DecodePacket(s)
      case Fail(e) => Fail(e)
      case Ok(child, n) =>
        if IsEoc(child) then
          if length == LENGTH_INDEFINITE then Ok([], n) else Fail(UnexpectedEoc)
        else
          match DecodeChildren(s[n..], length, contentRead + n)
          case Fail(e) => Fail(e)
          case Ok(cs, m) => Ok([child] + cs, n + m)
  }

  lemma {:induction false} ConcatSnoc(cs: seq<Packet>, c: Packet)
    ensures ConcatBytes(cs + [c]) == ConcatBytes(cs) + Bytes(c)
  {
    hide Bytes;
    if cs == [] {
      assert [c][1..] == [];
    } else {
      assert (cs + [c])[1..] == cs[1..] + [c];
      ConcatSnoc(cs[1..], c);
      assert ConcatBytes(cs + [c]) == Bytes(cs[0]) + (ConcatBytes(cs[1..]) + Bytes(c));
    }
  }

  /** What the loop has so far, joined with what the rest of it would add. */
  function Extend(done: seq<Packet>, taken: nat, more: Decoded<seq<Packet>>): Decoded<seq<Packet>>
  {
    match more
    case Fail(e) => Fail(e)
    case Ok(cs, n) => Ok(done + cs, taken + n)
  }

  /** One turn of the content loop on a child that is not an end marker. */
  lemma ContentTurn(s: bytes, length: int, contentRead: nat, child: Packet, n: nat, tail: bytes, done: seq<Packet>)
    requires DecodePacket(s) == Ok(child, n) && !IsEoc(child)
    requires length == LENGTH_INDEFINITE || contentRead < length
    requires n <= |s| && s[n..] == tail
    ensures Extend(done, contentRead, DecodeChildren(s, length, contentRead))
         == Extend(done + [child], contentRead + n, DecodeChildren(tail, length, contentRead + n))
  {
    hide DecodePacket;
    var more := DecodeChildren(tail, length, contentRead + n);
    if more.Ok? {
      assert done + ([child] + more.value) == (done + [child]) + more.value;
    }
  }

  lemma ContentTurnOk(s: bytes, length: int, contentRead: nat, child: Packet, n: nat,
                      tail: bytes, cs: seq<Packet>, m: nat)
    requires DecodePacket(s) == Ok(child, n) && !IsEoc(child)
    requires length == LENGTH_INDEFINITE || contentRead < length
    requires n <= |s| && s[n..] == tail
    requires DecodeChildren(tail, length, contentRead + n) == Ok(cs, m)
    ensures DecodeChildren(s, length, contentRead) == Ok([child] + cs, n + m)
  {
    hide DecodePacket;
  }

  /** The content loop of readPacket, for a constructed packet whose header has been read. */
  method ReadContent(src: Input, id: Identifier, length: int) returns (r: Decoded<Packet>)
    modifies src
    ensures match DecodeChildren(old(src.data), length, 0)
            case Fail(e) => r == Fail(e)
            case Ok(cs, n) => r == Ok(Packet(id, NoValue, ConcatBytes(cs), cs), n)
    ensures r.Ok? ==> r.read <= |old(src.data)| && src.data == old(src.data)[r.read..]
    decreases |src.data|, 2
  {
    hide DecodePacket, Bytes, IsEoc;
    ghost var s := src.data;
    var p := Packet(id, NoValue, [], []);
    var contentRead := 0;
    assert forall cs: seq<Packet> :: [] + cs == cs;
    while true
      invariant 0 <= contentRead <= |s| && src.data == s[contentRead..]
      invariant p == Packet(id, NoValue, ConcatBytes(p.children), p.children)
      invariant Extend(p.children, contentRead, DecodeChildren(s[contentRead..], length, contentRead))
             == DecodeChildren(s, length, 0)
      decreases |src.data|
    {
      if length != LENGTH_INDEFINITE {
        if contentRead == length {
          assert p.children + [] == p.children;
          break;
        }
        if contentRead > length {
          return Fail(Overrun);
        }
      }
      ghost var here, before := s[contentRead..], contentRead;
      var child := ReadPacket(src);
      if child.Fail? {
        return Fail(child.error);
      }
      contentRead := contentRead + child.read;
      assert here[child.read..] == s[contentRead..];
      if IsEoc(child.value) {
        if length == LENGTH_INDEFINITE {
          assert p.children + [] == p.children;
          break;
        }
        return Fail(UnexpectedEoc);
      }
      ConcatSnoc(p.children, child.value);
      ContentTurn(here, length, before, child.value, child.read, s[contentRead..], p.children);
      p := AppendChild(p, child.value);
    }
    return Ok(p, contentRead);
  }

  /** readPacket over a stateful reader computes DecodePacket. */
  method ReadPacket(src: Input) returns (r: Decoded<Packet>)
    modifies src
    ensures r == DecodePacket(old(src.data))
    ensures r.Ok? ==> src.data == old(src.data)[r.read..]
    decreases |src.data|, 1
  {
    hide Bytes, DecodeHeader, ContentValue;
    ghost var s := src.data;
    var header := ReadHeader(src);
    if header.Fail? {
      return Fail(header.error);
    }
    var (id, length) := header.value;
    var read := header.read;
    if id.kind == Constructed {
      var p := ReadContent(src, id, length);
      if p.Fail? {
        return Fail(p.error);
      }
      return Ok(p.value, read + p.read);
    }
    if length < 0 {
      return Fail(NegativeLength);
    }
    if |src.data| < length {
      return Fail(UnexpectedEof);
    }
    var content := src.data[..length];
    src.data := src.data[length..];
    assert content == s[read..read + length];
    read := read + length;
    return Ok(Packet(id, ContentValue(id, content), content, []), read);
  }

  // ------------------------------------------------------------------ trees

  /** Every length in the tree fits an int and every tag a uint64: what Go's types give. */
  ghost predicate Sized(p: Packet)
  {
    p.id.tag < TWO64 && |p.data| < TWO63 && forall c <- p.children :: Sized(c)
  }

  /** Built by AppendChild only, primitives without children, and no empty EOC child. */
  ghost predicate WellBuilt(p: Packet)
  {
    && (if p.id.kind == Constructed then p.data == ConcatBytes(p.children) else p.children == [])
    && (forall c <- p.children :: WellBuilt(c) && !IsEoc(c))
  }

  ghost predicate TagsRoundTrip(p: Packet)
  {
    TagRoundTrips(p.id.tag) && forall c <- p.children :: TagsRoundTrip(c)
  }

  /** Well built, with tags that round trip. */
  ghost predicate Good(p: Packet)
  {
    WellBuilt(p) && TagsRoundTrip(p)
  }

  /** The packet as the reader would hand it out: same identifiers, contents and children, with
      the Values the reader derives. */
  function Normal(p: Packet): Packet
  {
    Packet(p.id, if p.id.kind == Constructed then NoValue else ContentValue(p.id, p.data),
           p.data, NormalAll(p.children))
  }

  function NormalAll(cs: seq<Packet>): (r: seq<Packet>)
    ensures |r| == |cs|
  {
    if cs == [] then [] else [Normal(cs[0])] + NormalAll(cs[1..])
  }

  lemma {:induction false} NormalKeepsBytes(cs: seq<Packet>)
    ensures ConcatBytes(NormalAll(cs)) == ConcatBytes(cs)
  {
    if cs != [] {
      NormalKeepsBytes(cs[1..]);
      assert NormalAll(cs)[1..] == NormalAll(cs[1..]);
      assert Bytes(Normal(cs[0])) == Bytes(cs[0]);
    }
  }

  function HeaderLen(p: Packet): nat
  {
    |EncodeIdentifier(p.id)| + |EncodeLength(|p.data|)|
  }

  /** The header of an encoded packet reads back exactly when its tag round trips. */
  lemma {:induction false} HeaderRoundTrip(p: Packet, rest: bytes)
    requires p.id.tag < TWO64 && |p.data| < TWO63
    ensures var s := Bytes(p) + rest; var r := DecodeHeader(s); var h := HeaderLen(p);
            && s[h..] == p.data + rest && |Bytes(p)| == h + |p.data|
            && (r.Ok? && r.value.0 == p.id ==> TagRoundTrips(p.id.tag))
            && (TagRoundTrips(p.id.tag) ==> r == Ok((p.id, |p.data|), h))
  {
    hide EncodeIdentifier, EncodeLength, DecodeIdentifier, DecodeLength;
    var id, len := EncodeIdentifier(p.id), EncodeLength(|p.data|);
    var s := Bytes(p) + rest;
    assert s == id + (len + (p.data + rest));
    IdentifierRoundTrip(p.id, len + (p.data + rest));
    assert s[|id|..] == len + (p.data + rest);
    LengthRoundTrip(|p.data|, p.data + rest);
    assert s[|id| + |len|..] == p.data + rest;
  }

  /** readPacket(Bytes(t)) is t, and it reports exactly the bytes of t, whatever follows. */
  lemma {:induction false} PacketRoundTrip(p: Packet, rest: bytes)
    requires Sized(p) && Good(p)
    ensures DecodePacket(Bytes(p) + rest) == Ok(Normal(p), |Bytes(p)|)
    decreases p, 1
  {
    hide DecodeHeader, EncodeIdentifier, EncodeLength, DecodeIdentifier, DecodeLength;
    HeaderRoundTrip(p, rest);
    if p.id.kind == Constructed {
      ChildrenRoundTrip(p.children, rest, |p.data|, 0);
      NormalKeepsBytes(p.children);
    } else {
      var s, h := Bytes(p) + rest, HeaderLen(p);
      assert s[h..h + |p.data|] == s[h..][..|p.data|] == p.data;
    }
  }

  ghost predicate GoodChild(c: Packet)
  {
    Sized(c) && Good(c) && !IsEoc(c)
  }

  lemma {:induction false} ChildrenRoundTrip(cs: seq<Packet>, rest: bytes, length: nat, contentRead: nat)
    requires forall c <- cs :: GoodChild(c)
    requires contentRead + |ConcatBytes(cs)| == length
    ensures DecodeChildren(ConcatBytes(cs) + rest, length, contentRead) == Ok(NormalAll(cs), |ConcatBytes(cs)|)
    decreases cs, 0
  {
    hide DecodePacket, Bytes, DecodeHeader, EncodeIdentifier, EncodeLength, DecodeIdentifier, DecodeLength;
    var s := ConcatBytes(cs) + rest;
    if cs == [] {
      assert DecodeChildren(s, length, contentRead) == Ok([], 0);
    } else {
      var c, tail := cs[0], ConcatBytes(cs[1..]) + rest;
      var n := |Bytes(c)|;
      assert s == Bytes(c) + tail && s[n..] == tail;
      assert GoodChild(c);
      PacketRoundTrip(c, tail);
      ChildrenRoundTrip(cs[1..], rest, length, contentRead + n);
      ContentTurnOk(s, length, contentRead, Normal(c), n, tail, NormalAll(cs[1..]), |ConcatBytes(cs[1..])|);
    }
  }

  /** Nothing weaker would do: a packet that reads back as itself is Good. */
  lemma {:induction false} ReadBackIsGood(p: Packet, rest: bytes)
    requires Sized(p)
    requires var r := DecodePacket(Bytes(p) + rest); r.Ok? && r.value == Normal(p)
    ensures Good(p)
    decreases p, 1
  {
    hide DecodeHeader, EncodeIdentifier, EncodeLength, DecodeIdentifier, DecodeLength;
    HeaderRoundTrip(p, rest);
    if p.id.kind == Constructed {
      NormalKeepsBytes(p.children);
      ChildrenReadBackAreGood(p.children, rest, |p.data|, 0);
    }
  }

  /** The rest of the children once the first has been read back. */
  lemma OthersReadBack(c: Packet, tail: bytes, length: nat, contentRead: nat, more: seq<Packet>)
    requires Sized(c) && Good(c) && !IsEoc(c) && contentRead < length
    requires var r := DecodeChildren(Bytes(c) + tail, length, contentRead);
             r.Ok? && r.value == [Normal(c)] + more
    ensures var r := DecodeChildren(tail, length, contentRead + |Bytes(c)|); r.Ok? && r.value == more
  {
    hide Sized, Good, DecodePacket, Bytes, DecodeChildren;
    var s, n := Bytes(c) + tail, |Bytes(c)|;
    assert s[n..] == tail;
    PacketRoundTrip(c, tail);
    ContentTurn(s, length, contentRead, Normal(c), n, tail, []);
    var all, others := DecodeChildren(s, length, contentRead), DecodeChildren(tail, length, contentRead + n);
    assert [] + all.value == all.value && [] + [Normal(c)] == [Normal(c)];
    assert ([Normal(c)] + others.value)[1..] == others.value && ([Normal(c)] + more)[1..] == more;
  }

  lemma {:induction false} ChildrenReadBackAreGood(cs: seq<Packet>, rest: bytes, length: nat, contentRead: nat)
    requires forall c <- cs :: Sized(c)
    requires contentRead + |ConcatBytes(cs)| == length
    requires var r := DecodeChildren(ConcatBytes(cs) + rest, length, contentRead);
             r.Ok? && r.value == NormalAll(cs)
    ensures forall c <- cs :: GoodChild(c)
    decreases cs, 0
  {
    hide Sized, Good, IsEoc, DecodePacket, Bytes, DecodeHeader, EncodeIdentifier, EncodeLength, DecodeIdentifier, DecodeLength;
    if cs != [] {
      var c, tail := cs[0], ConcatBytes(cs[1..]) + rest;
      var more := NormalAll(cs[1..]);
      assert ConcatBytes(cs) + rest == Bytes(c) + tail;
      assert NormalAll(cs) == [Normal(c)] + more;
      FirstChildReadBack(c, tail, length, contentRead, more);
      ReadBackIsGood(c, tail);
      OthersReadBack(c, tail, length, contentRead, more);
      ChildrenReadBackAreGood(cs[1..], rest, length, contentRead + |Bytes(c)|);
      assert forall d <- cs :: d == c || d in cs[1..];
    }
  }

  lemma {:induction false} FirstChildReadBack(c: Packet, tail: bytes, length: nat, contentRead: nat, more: seq<Packet>)
    requires contentRead < length
    requires var r := DecodeChildren(Bytes(c) + tail, length, contentRead);
             r.Ok? && r.value == [Normal(c)] + more
    ensures var r := DecodePacket(Bytes(c) + tail); r.Ok? && r.value == Normal(c)
    ensures !IsEoc(c)
  {
    hide DecodeHeader, EncodeIdentifier, EncodeLength, DecodeIdentifier, DecodeLength;
    var s := Bytes(c) + tail;
    var r := DecodePacket(s);
    var all := DecodeChildren(s, length, contentRead);
    assert all.value[0] == r.value;
    assert ([Normal(c)] + more)[0] == Normal(c);
  }

  /** The exact domain of the codec: a tree reads back as itself iff it is Good. */
  lemma {:induction false} PacketRoundTripExactly(p: Packet, rest: bytes)
    requires Sized(p)
    ensures DecodePacket(Bytes(p) + rest) == Ok(Normal(p), |Bytes(p)|) <==> Good(p)
  {
    if Good(p) {
      PacketRoundTrip(p, rest);
    } else if DecodePacket(Bytes(p) + rest) == Ok(Normal(p), |Bytes(p)|) {
      ReadBackIsGood(p, rest);
    }
  }

  /** Whatever the reader accepts, definite or indefinite, minimal lengths or not, is a well-built tree in
      normal form: it fails to be Good only through a tag. */
  lemma {:induction false} ReadIsWellBuilt(s: bytes)
    requires DecodePacket(s).Ok?
    ensures WellBuilt(DecodePacket(s).value) && Normal(DecodePacket(s).value) == DecodePacket(s).value
    decreases |s|, 1
  {
    hide DecodeHeader, EncodeIdentifier, EncodeLength, DecodeIdentifier, DecodeLength;
    var h := DecodeHeader(s).read;
    var (id, length) := DecodeHeader(s).value;
    if id.kind == Constructed {
      ReadChildrenAreWellBuilt(s[h..], length, 0);
    }
  }

  lemma {:induction false} ReadChildrenAreWellBuilt(s: bytes, length: int, contentRead: nat)
    requires DecodeChildren(s, length, contentRead).Ok?
    ensures forall c <- DecodeChildren(s, length, contentRead).value :: WellBuilt(c) && !IsEoc(c)
    ensures NormalAll(DecodeChildren(s, length, contentRead).value) == DecodeChildren(s, length, contentRead).value
    decreases |s|, 2
  {
    hide DecodeHeader, EncodeIdentifier, EncodeLength, DecodeIdentifier, DecodeLength;
    if length != LENGTH_INDEFINITE && contentRead == length {
      return;
    }
    var r := DecodePacket(s);
    if IsEoc(r.value) {
      return;
    }
    var cs := DecodeChildren(s, length, contentRead).value;
    var rest := DecodeChildren(s[r.read..], length, contentRead + r.read).value;
    assert cs == [r.value] + rest;
    assert cs[0] == r.value && cs[1..] == rest;
    assert forall c <- rest :: c in cs;
    ReadIsWellBuilt(s);
    ReadChildrenAreWellBuilt(s[r.read..], length, contentRead + r.read);
  }

  /** Decode, encode, decode is decode: re-encoding any accepted input keeps the whole tree exactly when
      all its tags round trip. */
  lemma {:induction false} ReencodeKeepsTree(s: bytes, rest: bytes)
    requires DecodePacket(s).Ok? && Sized(DecodePacket(s).value)
    ensures var p := DecodePacket(s).value;
            DecodePacket(Bytes(p) + rest) == Ok(p, |Bytes(p)|) <==> TagsRoundTrip(p)
  {
    ReadIsWellBuilt(s);
    PacketRoundTripExactly(DecodePacket(s).value, rest);
  }
}
