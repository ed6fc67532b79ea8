/**
 The BER codec of asn1-ber.v1: identifier octets, length octets and integer contents
 (sections 8.1.2, 8.1.3 and 8.3 of ITU-T X.690).

 Each loop of the source is a method here; the function it is proved against follows the same
 octets recursively, and the lemmas at the end of each part are about those functions.
 */
module BerPrimitives {
  import opened Base

  datatype BerError =
    | UnexpectedEof
    | InvalidTag             // first high-tag octet carries no bits
    | TagOverflow
    | InvalidLength          // 0xff
    | LengthOverflow
    | IndefinitePrimitive
    | NegativeLength         // eight length octets with the top bit set: make() panics on it
    | Overrun                // children do not end on the declared length
    | UnexpectedEoc
    | IntegerTooLarge

  /** What a reader function returns: a value and the number of bytes it took, or an error. */
  datatype Decoded<+T> = Ok(value: T, read: nat) | Fail(error: BerError)

  datatype Class = Universal | Application | Context | Private
  datatype Kind = Primitive | Constructed
  datatype Identifier = Identifier(class_: Class, kind: Kind, tag: nat)

  const HIGH_TAG: nat := 0x1f
  const LENGTH_INDEFINITE: int := -1

  function ClassBits(c: Class): (r: nat)
  {
    match c case Universal => 0 case Application => 64 case Context => 128 case Private => 192
  }

  function KindBits(k: Kind): (r: nat)
  {
    if k.Constructed? then 32 else 0
  }

  /** The two top bits and the third bit of an identifier octet. */
  function ClassOf(b: byte): Class
  {
    if b < 64 then Universal else if b < 128 then Application else if b < 192 then Context else Private
  }

  function KindOf(b: byte): Kind
  {
    if b / 32 % 2 == 1 then Constructed else Primitive
  }

  /** A reader over what is left of its input. */
  class Input {
    var data: bytes

    constructor (d: bytes)
      ensures data == d
    {
      data := d;
    }

    method ReadByte() returns (b: Option<byte>)
      modifies this
      ensures b.None? <==> old(data) == []
      ensures b.None? ==> data == []
      ensures b.Some? ==> b.value == old(data)[0] && data == old(data)[1..]
    {
      if data == [] {
        return None;
      }
      b := Some(data[0]);
      data := data[1..];
    }
  }

  // ------------------------------------------------------------------ shifts

  /** x >> k on an unsigned value. */
  function Shr(x: nat, k: nat): nat
  {
    if k == 0 then x else Shr(x / 2, k - 1)
  }

  lemma {:induction false} ShrSeven(x: nat, k: nat)
    ensures Shr(x, k + 7) == Shr(x / 128, k)
  {
    assert Shr(x, k + 7) == Shr(x / 2, k + 6);
    assert Shr(x / 2, k + 6) == Shr(x / 4, k + 5);
    assert Shr(x / 4, k + 5) == Shr(x / 8, k + 4);
    assert Shr(x / 8, k + 4) == Shr(x / 16, k + 3);
    assert Shr(x / 16, k + 3) == Shr(x / 32, k + 2);
    assert Shr(x / 32, k + 2) == Shr(x / 64, k + 1);
  }

  // ------------------------------------------------------------------ identifier octets

  /** Index of the highest set bit. */
  function HighBit(tag: nat): nat
    requires tag > 0
  {
    if tag == 1 then 0 else 1 + HighBit(tag / 2)
  }

  /** The low n seven-bit groups of a tag, most significant first; all but the last continue. */
  function TagGroups(tag: nat, n: nat): (r: bytes)
    ensures |r| == n
  {
    if n == 0 then [] else Continued(TagGroups(tag / 128, n - 1)) + [tag % 128]
  }

  /** The same groups with every continuation bit set. */
  function Continued(gs: bytes): (r: bytes)
    ensures |r| == |gs|
  {
    seq(|gs|, i requires 0 <= i < |gs| => if gs[i] < 128 then gs[i] + 128 else gs[i])
  }

  function TagBytesNeeded(tag: nat): nat
    requires tag > 0
  {
    (HighBit(tag) + 6) / 7
  }

  function EncodeIdentifier(id: Identifier): (r: bytes)
    ensures |r| >= 1
  {
    var lead := ClassBits(id.class_) + KindBits(id.kind);
    if id.tag < HIGH_TAG then [lead + id.tag]
    else [lead + HIGH_TAG] + TagGroups(id.tag, TagBytesNeeded(id.tag))
  }

  /** The high-tag-number loop of readIdentifier. */
  function DecodeTag(s: bytes, tag: nat, count: nat): (r: Decoded<nat>)
    ensures r.Ok? ==> 1 <= r.read <= |s|
  {
    if s == [] then Fail(UnexpectedEof)
    else
      var t := tag * 128 + s[0] % 128;
      if count == 0 && t == 0 then Fail(InvalidTag)
      else if count + 1 > 9 then Fail(TagOverflow)
      else if s[0] < 128 then Ok(t, 1)
      else match DecodeTag(s[1..], t, count + 1)
        case Ok(v, n) => Ok(v, n + 1)
        case Fail(e) => Fail(e)
  }

  function DecodeIdentifier(s: bytes): (r: Decoded<Identifier>)
    ensures r.Ok? ==> 1 <= r.read <= |s|
  {
    if s == [] then Fail(UnexpectedEof)
    else if s[0] % 32 != HIGH_TAG then Ok(Identifier(ClassOf(s[0]), KindOf(s[0]), s[0] % 32), 1)
    else match DecodeTag(s[1..], 0, 0)
      case Ok(t, n) => Ok(Identifier(ClassOf(s[0]), KindOf(s[0]), t), n + 1)
      case Fail(e) => Fail(e)
  }

  /** readIdentifier: the loop over a stateful reader computes DecodeIdentifier. */
  method ReadIdentifier(src: Input) returns (r: Decoded<Identifier>)
    modifies src
    ensures r == DecodeIdentifier(old(src.data))
    ensures r.Ok? ==> src.data == old(src.data)[r.read..]
  {
    ghost var s := src.data;
    var read := 0;
    var first := src.ReadByte();
    if first.None? {
      return Fail(UnexpectedEof);
    }
    read := read + 1;
    var id := Identifier(ClassOf(first.value), KindOf(first.value), 0);
    var tag := first.value % 32;
    if tag != HIGH_TAG {
      return Ok(id.(tag := tag), read);
    }
    var tagBytes := 0;
    while true
      invariant read == 1 + tagBytes && tagBytes <= 9 && read <= |s|
      invariant src.data == s[read..]
      invariant match DecodeTag(s[read..], id.tag, tagBytes)
                case Ok(t, n) => DecodeTag(s[1..], 0, 0) == Ok(t, n + tagBytes)
                case Fail(e) => DecodeTag(s[1..], 0, 0) == Fail(e)
      invariant id.class_ == ClassOf(s[0]) && id.kind == KindOf(s[0])
      decreases |src.data|
    {
      var b := src.ReadByte();
      if b.None? {
        return Fail(UnexpectedEof);
      }
      tagBytes := tagBytes + 1;
      read := read + 1;
      id := id.(tag := id.tag * 128 + b.value % 128);
      if tagBytes == 1 && id.tag == 0 {
        return Fail(InvalidTag);
      }
      if tagBytes > 9 {
        return Fail(TagOverflow);
      }
      if b.value < 128 {
        break;
      }
    }
    return Ok(id, read);
  }

  /** Group i of a tag is what the mask and shift of encodeIdentifier extract. */
  lemma {:induction false} TagGroupAt(tag: nat, n: nat, i: nat)
    requires i < n
    ensures TagGroups(tag, n)[n - 1 - i] == Shr(tag, i * 7) % 128 + if i != 0 then 128 else 0
    decreases n
  {
    if i != 0 {
      TagGroupAt(tag / 128, n - 1, i - 1);
      ShrSeven(tag, (i - 1) * 7);
    }
  }

  /** The search for the highest set bit in encodeIdentifier, from bit 63 down. */
  method FindHighBit(tag: nat) returns (highBit: nat)
    requires 0 < tag < TWO64
    ensures highBit == HighBit(tag)
  {
    highBit := 63;
    WordSizes();
    HighBitBound(tag, 64);
    while Shr(tag, highBit) % 2 == 0
      invariant 0 <= highBit <= 63
      invariant HighBit(tag) <= highBit
      decreases highBit
    {
      HighBitBelow(tag, highBit);
      highBit := highBit - 1;
    }
    HighBitFound(tag, highBit);
  }

  lemma PrefixGrows(gs: bytes, k: nat, next: byte)
    requires k < |gs| && gs[k] == next
    ensures gs[..k] + [next] == gs[..k + 1]
  {
  }

  /** encodeIdentifier: a lead octet, then for a high tag one octet per seven bits. */
  method WriteIdentifier(id: Identifier) returns (b: bytes)
    requires id.tag < TWO64
    ensures b == EncodeIdentifier(id)
  {
    hide Shr, TagGroups, HighBit;
    var lead := ClassBits(id.class_) + KindBits(id.kind);
    if id.tag < HIGH_TAG {
      return [lead + id.tag];
    }
    var highBit := FindHighBit(id.tag);
    var tagBytes := (highBit + 6) / 7;
    var i: int := tagBytes - 1;
    ghost var gs := TagGroups(id.tag, tagBytes);
    var groups: bytes := [];
    while i >= 0
      invariant -1 <= i < tagBytes
      invariant groups == gs[..tagBytes - 1 - i]
    {
      var tagByte := Shr(id.tag, i * 7) % 128;
      if i != 0 {
        tagByte := tagByte + 0x80;
      }
      TagGroupAt(id.tag, tagBytes, i);
      PrefixGrows(gs, tagBytes - 1 - i, tagByte);
      groups := groups + [tagByte];
      i := i - 1;
    }
    b := [lead + HIGH_TAG] + groups;
  }

  /** Bit k of x is zero or one, and HighBit(x) is the largest k whose bit is set. */
  lemma {:induction false} HighBitFound(x: nat, k: nat)
    requires x > 0 && HighBit(x) <= k && Shr(x, k) % 2 != 0
    ensures k == HighBit(x)
  {
    if HighBit(x) < k {
      ShrBeyond(x, k);
    }
  }

  lemma {:induction false} ShrBeyond(x: nat, k: nat)
    requires x > 0 && HighBit(x) < k
    ensures Shr(x, k) == 0
  {
    if x == 1 {
      ShrZero(k - 1);
    } else {
      ShrBeyond(x / 2, k - 1);
    }
  }

  lemma {:induction false} ShrZero(k: nat)
    ensures Shr(0, k) == 0
  {
    if k > 0 { ShrZero(k - 1); }
  }

  lemma {:induction false} HighBitBelow(x: nat, k: nat)
    requires x > 0 && HighBit(x) <= k && Shr(x, k) % 2 == 0
    ensures HighBit(x) < k
  {
    if HighBit(x) == k {
      ShrAtHighBit(x);
    }
  }

  lemma {:induction false} ShrAtHighBit(x: nat)
    requires x > 0
    ensures Shr(x, HighBit(x)) == 1
  {
    if x > 1 { ShrAtHighBit(x / 2); }
  }

  function Pow2(k: nat): (r: nat)
    ensures r > 0
  {
    if k == 0 then 1 else 2 * Pow2(k - 1)
  }

  lemma WordSizes()
    ensures Pow2(63) == TWO63 && Pow2(64) == TWO64
  {
    assert Pow2(0) == 1 && Pow2(8) == 0x100 && Pow2(16) == 0x1_0000 && Pow2(24) == 0x100_0000;
    assert Pow2(32) == 0x1_0000_0000 && Pow2(40) == 0x100_0000_0000 && Pow2(48) == 0x1_0000_0000_0000;
    assert Pow2(56) == 0x100_0000_0000_0000;
  }

  lemma {:induction false} HighBitBound(x: nat, k: nat)
    requires x > 0
    ensures HighBit(x) < k <==> x < Pow2(k)
  {
    if x > 1 && k > 0 { HighBitBound(x / 2, k - 1); }
  }

  // ------------------------------------------------------------------ identifier round trip

  /** Whether a tag survives encoding: the ceiling of highBit / 7 counts one group too few
      exactly when the highest bit starts a group. */
  predicate TagRoundTrips(tag: nat)
  {
    tag < HIGH_TAG || HighBit(tag) % 7 != 0
  }

  /** The value of groups read from the left. */
  function GroupValue(acc: nat, gs: bytes): nat
    decreases |gs|
  {
    if gs == [] then acc else GroupValue(acc * 128 + gs[0] % 128, gs[1..])
  }

  /** What the low n groups of a tag are worth. */
  function LowGroups(tag: nat, n: nat): nat
  {
    if n == 0 then 0 else LowGroups(tag / 128, n - 1) * 128 + tag % 128
  }

  lemma {:induction false} GroupValueSnoc(acc: nat, gs: bytes, b: byte)
    ensures GroupValue(acc, gs + [b]) == GroupValue(acc, gs) * 128 + b % 128
    decreases |gs|
  {
    if gs != [] {
      assert (gs + [b])[1..] == gs[1..] + [b];
      GroupValueSnoc(acc * 128 + gs[0] % 128, gs[1..], b);
    }
  }

  lemma {:induction false} GroupValueContinued(acc: nat, gs: bytes)
    ensures GroupValue(acc, Continued(gs)) == GroupValue(acc, gs)
    decreases |gs|
  {
    if gs != [] {
      assert Continued(gs)[1..] == Continued(gs[1..]);
      GroupValueContinued(acc * 128 + gs[0] % 128, gs[1..]);
    }
  }

  lemma {:induction false} TagGroupsValue(tag: nat, n: nat)
    ensures GroupValue(0, TagGroups(tag, n)) == LowGroups(tag, n)
  {
    if n > 0 {
      TagGroupsValue(tag / 128, n - 1);
      GroupValueContinued(0, TagGroups(tag / 128, n - 1));
      GroupValueSnoc(0, Continued(TagGroups(tag / 128, n - 1)), tag % 128);
    }
  }

  /** The reader's loop folds a run of continued octets closed by one below 0x80. */
  lemma {:induction false} DecodeTagFolds(gs: bytes, rest: bytes, tag: nat, count: nat)
    requires gs != [] && count + |gs| <= 9
    requires forall i :: 0 <= i < |gs| - 1 ==> gs[i] >= 128
    requires gs[|gs| - 1] < 128
    ensures DecodeTag(gs + rest, tag, count)
         == if count == 0 && tag == 0 && gs[0] % 128 == 0 then Fail(InvalidTag)
            else Ok(GroupValue(tag, gs), |gs|)
    decreases |gs|
  {
    assert (gs + rest)[0] == gs[0];
    if |gs| > 1 {
      assert (gs + rest)[1..] == gs[1..] + rest;
      DecodeTagFolds(gs[1..], rest, tag * 128 + gs[0] % 128, count + 1);
    }
  }

  lemma {:induction false} TagGroupsShape(tag: nat, n: nat)
    requires n > 0
    ensures forall i :: 0 <= i < n - 1 ==> TagGroups(tag, n)[i] >= 128
    ensures TagGroups(tag, n)[n - 1] < 128
  {
  }

  lemma {:induction false} TopGroupNonZero(tag: nat, n: nat)
    requires tag > 0 && n > 0 && 7 * (n - 1) <= HighBit(tag) < 7 * n
    ensures TagGroups(tag, n)[0] % 128 != 0
  {
    hide HighBit, TagGroups;
    if n > 1 {
      HighBitSeven(tag);
      TopGroupNonZero(tag / 128, n - 1);
    } else {
      HighBitBound(tag, 7);
      assert Pow2(7) == 128;
    }
    TopGroup(tag, n);
  }

  /** The top group of a tag is the top group of what remains without its lowest seven bits. */
  lemma TopGroup(tag: nat, n: nat)
    requires n > 0
    ensures TagGroups(tag, n)[0] % 128 == if n > 1 then TagGroups(tag / 128, n - 1)[0] % 128 else tag % 128
  {
    if n > 1 {
      var above := TagGroups(tag / 128, n - 1);
      assert TagGroups(tag, n)[0] == Continued(above)[0];
    } else {
      assert TagGroups(tag, 1) == Continued(TagGroups(tag / 128, 0)) + [tag % 128];
    }
  }

  lemma {:induction false} HighBitSeven(tag: nat)
    requires tag > 0 && HighBit(tag) >= 7
    ensures tag >= 128 && HighBit(tag) == 7 + HighBit(tag / 128)
  {
    HighBitBound(tag, 7);
    assert Pow2(7) == 128;
    HighBitQuarter(tag);
    HighBitQuarter(tag / 4);
    HighBitQuarter(tag / 16);
    assert tag / 4 / 4 == tag / 16 && tag / 16 / 4 == tag / 64 && tag / 64 / 2 == tag / 128;
  }

  lemma HighBitQuarter(tag: nat)
    requires tag >= 4
    ensures HighBit(tag) == 2 + HighBit(tag / 4)
  {
    assert HighBit(tag) == 1 + HighBit(tag / 2);
    assert tag / 2 / 2 == tag / 4;
  }

  /** n groups are enough exactly when the highest bit is among them. */
  lemma {:induction false} LowGroupsComplete(tag: nat, n: nat)
    requires tag > 0
    ensures LowGroups(tag, n) == tag <==> HighBit(tag) < 7 * n
    decreases n
  {
    if n > 0 {
      if HighBit(tag) >= 7 {
        HighBitSeven(tag);
        LowGroupsComplete(tag / 128, n - 1);
      } else {
        HighBitBound(tag, 7);
        assert Pow2(7) == 128;
        LowGroupsZero(n - 1);
      }
    }
  }

  lemma {:induction false} LowGroupsZero(n: nat)
    ensures LowGroups(0, n) == 0
  {
    if n > 0 { LowGroupsZero(n - 1); }
  }

  lemma TagBytesBounds(tag: nat)
    requires HIGH_TAG <= tag < TWO64
    ensures 1 <= TagBytesNeeded(tag) <= 9
    ensures 7 * (TagBytesNeeded(tag) - 1) <= HighBit(tag) <= 7 * TagBytesNeeded(tag)
    ensures HighBit(tag) < 7 * TagBytesNeeded(tag) <==> HighBit(tag) % 7 != 0
  {
    HighTagBits(tag);
    CeilSeven(HighBit(tag));
  }

  lemma HighTagBits(tag: nat)
    requires HIGH_TAG <= tag < TWO64
    ensures 4 <= HighBit(tag) < 64
  {
    WordSizes();
    HighBitBound(tag, 64);
    HighBitBound(tag, 4);
    assert Pow2(4) == 16;
  }

  lemma CeilSeven(h: nat)
    requires 4 <= h < 64
    ensures var n := (h + 6) / 7;
            1 <= n <= 9 && 7 * (n - 1) <= h <= 7 * n && (h < 7 * n <==> h % 7 != 0)
  {
  }

  lemma {:induction false} HighTagRoundTrip(tag: nat, rest: bytes)
    requires HIGH_TAG <= tag < TWO64
    ensures var r := DecodeTag(TagGroups(tag, TagBytesNeeded(tag)) + rest, 0, 0);
            && (r.Ok? && r.value == tag <==> TagRoundTrips(tag))
            && (r.Ok? ==> r.read == TagBytesNeeded(tag))
  {
    var n := TagBytesNeeded(tag);
    TagBytesBounds(tag);
    var gs := TagGroups(tag, n);
    TagGroupsShape(tag, n);
    DecodeTagFolds(gs, rest, 0, 0);
    assert GroupValue(0, gs) == tag <==> TagRoundTrips(tag) by {
      TagGroupsValue(tag, n);
      LowGroupsComplete(tag, n);
    }
    if TagRoundTrips(tag) {
      TopGroupNonZero(tag, n);
    }
  }

  /** readIdentifier gives back what encodeIdentifier wrote exactly for the tags that round trip,
      whatever follows in the input. */
  lemma {:induction false} IdentifierRoundTrip(id: Identifier, rest: bytes)
    requires id.tag < TWO64
    ensures var r := DecodeIdentifier(EncodeIdentifier(id) + rest);
            && (r.Ok? && r.value == id <==> TagRoundTrips(id.tag))
            && (TagRoundTrips(id.tag) ==> r.read == |EncodeIdentifier(id)|)
  {
    hide DecodeTag, TagGroups, TagBytesNeeded, HighBit, ClassOf, KindOf, ClassBits, KindBits;
    var s := EncodeIdentifier(id) + rest;
    if id.tag < HIGH_TAG {
      LeadOctet(id.class_, id.kind, id.tag);
      assert s[0] == ClassBits(id.class_) + KindBits(id.kind) + id.tag;
    } else {
      LeadOctet(id.class_, id.kind, HIGH_TAG);
      assert s[0] == ClassBits(id.class_) + KindBits(id.kind) + HIGH_TAG;
      var gs := TagGroups(id.tag, TagBytesNeeded(id.tag));
      assert s[1..] == gs + rest;
      HighTagRoundTrip(id.tag, rest);
    }
  }

  lemma LeadOctet(c: Class, k: Kind, low: nat)
    requires low < 32
    ensures var b := ClassBits(c) + KindBits(k) + low;
            ClassOf(b) == c && KindOf(b) == k && b % 32 == low
  {
  }

  /** The smallest tag that does not survive: 128 is written as one group and refused. */
  lemma TagLost()
    ensures DecodeIdentifier(EncodeIdentifier(Identifier(Context, Primitive, 128))) == Fail(InvalidTag)
  {
    assert TagGroups(128, 1) == [0];
    assert HighBit(128) == 7;
    assert DecodeTag([0], 0, 0) == Fail(InvalidTag);
    assert EncodeIdentifier(Identifier(Context, Primitive, 128)) == [128 + HIGH_TAG, 0];
    assert [128 + HIGH_TAG, 0][1..] == [0];
  }

  // ------------------------------------------------------------------ unsigned integers and length octets

  /** Base-256 digits, most significant first, without leading zeros. */
  function UintBytes(i: nat): (r: bytes)
    ensures |r| >= 1
  {
    if i < 256 then [i] else UintBytes(i / 256) + [i % 256]
  }

  lemma {:induction false} ShrEight(x: nat, k: nat)
    ensures Shr(x, k + 8) == Shr(x / 256, k)
  {
    ShrSeven(x, k + 1);
    assert Shr(x / 128, k + 1) == Shr(x / 128 / 2, k);
  }

  lemma {:induction false} UintByteAt(i: nat, k: nat)
    requires k < |UintBytes(i)|
    ensures UintBytes(i)[|UintBytes(i)| - 1 - k] == Shr(i, k * 8) % 256
    decreases i
  {
    if i >= 256 && k > 0 {
      UintByteAt(i / 256, k - 1);
      ShrEight(i, (k - 1) * 8);
    }
  }

  lemma {:induction false} UintBytesShort(i: nat, k: nat)
    requires k > 0 && i < Pow2(8 * k)
    ensures |UintBytes(i)| <= k
  {
    if i >= 256 {
      assert Pow2(8) == 256;
      Pow2Eight(8 * k - 8);
      UintBytesShort(i / 256, k - 1);
    }
  }

  /** uint64Length: one more octet for every shift that still leaves more than one. */
  method Uint64Length(i: nat) returns (numBytes: nat)
    ensures numBytes == |UintBytes(i)|
  {
    numBytes := 1;
    var x := i;
    while x > 255
      invariant numBytes - 1 + |UintBytes(x)| == |UintBytes(i)|
    {
      numBytes := numBytes + 1;
      x := x / 256;
    }
  }

  /** encodeUnsignedInteger fills its array from the most significant octet. */
  method EncodeUnsignedInteger(i: nat) returns (out: array<byte>)
    ensures fresh(out) && out[..] == UintBytes(i)
  {
    var n := Uint64Length(i);
    out := new byte[n];
    var j := 0;
    ghost var digits := UintBytes(i);
    while n > 0
      invariant 0 <= j && j + n == out.Length == |digits|
      invariant out[..j] == digits[..j]
    {
      UintByteAt(i, n - 1);
      out[j] := Shr(i, (n - 1) * 8) % 256;
      assert out[..j + 1] == out[..j] + [out[j]];
      j := j + 1;
      n := n - 1;
    }
  }

  function EncodeLength(length: nat): (r: bytes)
    ensures |r| >= 1
  {
    if length > 127 && |UintBytes(length)| < 128 then [128 + |UintBytes(length)|] + UintBytes(length)
    else UintBytes(length)
  }

  method WriteLength(length: nat) returns (r: bytes)
    requires length < TWO63
    ensures r == EncodeLength(length)
  {
    var digits := EncodeUnsignedInteger(length);
    r := digits[..];
    WordSizes();
    UintBytesShort(length, 8);
    if length > 127 || digits.Length > 1 {
      r := [0x80 + digits.Length] + r;
    }
  }

  /** A 64-bit pattern read as a two's complement integer. */
  function ToSigned(u: nat): int
  {
    if u < TWO63 then u else u - TWO64
  }

  /** length <<= 8; length |= b, on a 64-bit word. */
  function PushByte(word: nat, b: byte): nat
  {
    (word * 256 + b) % TWO64
  }

  function PushBytes(word: nat, s: bytes): nat
    decreases |s|
  {
    if s == [] then word else PushBytes(PushByte(word, s[0]), s[1..])
  }

  function DecodeLength(s: bytes): (r: Decoded<int>)
    ensures r.Ok? ==> 1 <= r.read <= |s|
  {
    if s == [] then Fail(UnexpectedEof)
    else if s[0] == 0xff then Fail(InvalidLength)
    else if s[0] == 0x80 then Ok(LENGTH_INDEFINITE, 1)
    else if s[0] < 128 then Ok(s[0], 1)
    else
      var n := s[0] - 128;
      if n > 8 then Fail(LengthOverflow)
      else if |s| < n + 1 then Fail(UnexpectedEof)
      else Ok(ToSigned(PushBytes(0, s[1..n + 1])), n + 1)
  }

  lemma {:induction false} PushBytesSnoc(word: nat, s: bytes, b: byte)
    ensures PushBytes(word, s + [b]) == PushByte(PushBytes(word, s), b)
    decreases |s|
  {
    if s != [] {
      assert (s + [b])[1..] == s[1..] + [b];
      PushBytesSnoc(PushByte(word, s[0]), s[1..], b);
    } else {
      assert ([b])[1..] == [];
    }
  }

  /** readLength over a stateful reader computes DecodeLength. */
  method ReadLength(src: Input) returns (r: Decoded<int>)
    modifies src
    ensures r == DecodeLength(old(src.data))
    ensures r.Ok? ==> src.data == old(src.data)[r.read..]
  {
    ghost var s := src.data;
    var first := src.ReadByte();
    if first.None? {
      return Fail(UnexpectedEof);
    }
    var b := first.value;
    if b == 0xff {
      return Fail(InvalidLength);
    }
    if b == 0x80 {
      return Ok(LENGTH_INDEFINITE, 1);
    }
    if b < 128 {
      return Ok(b, 1);
    }
    var lengthBytes := b - 128;
    if lengthBytes > 8 {
      return Fail(LengthOverflow);
    }
    var word, read := 0, 1;
    for i := 0 to lengthBytes
      invariant read == i + 1 <= |s| && src.data == s[read..]
      invariant word == PushBytes(0, s[1..read])
    {
      var next := src.ReadByte();
      if next.None? {
        return Fail(UnexpectedEof);
      }
      PushBytesSnoc(0, s[1..read], next.value);
      assert s[1..read + 1] == s[1..read] + [next.value];
      read := read + 1;
      word := PushByte(word, next.value);
    }
    return Ok(ToSigned(word), read);
  }

  lemma {:induction false} UintBytesValue(i: nat)
    requires i < TWO64
    ensures PushBytes(0, UintBytes(i)) == i
  {
    if i < 256 {
      assert PushBytes(0, [i]) == PushBytes(i, [i][1..]);
    } else {
      UintBytesValue(i / 256);
      PushBytesSnoc(0, UintBytes(i / 256), i % 256);
    }
  }

  /** Every length that fits an int comes back, whatever follows. */
  lemma {:induction false} LengthRoundTrip(length: nat, rest: bytes)
    requires length < TWO63
    ensures DecodeLength(EncodeLength(length) + rest) == Ok(length, |EncodeLength(length)|)
  {
    WordSizes();
    UintBytesShort(length, 8);
    var digits := UintBytes(length);
    if length > 127 {
      var e := [128 + |digits|] + digits;
      assert (e + rest)[0] == 128 + |digits|;
      assert (e + rest)[1..|digits| + 1] == digits;
      UintBytesValue(length);
    }
  }

  // ------------------------------------------------------------------ signed integer contents

  /** Two's complement octets of i, as few as possible. */
  function IntBytes(i: int): (r: bytes)
    ensures |r| >= 1
    decreases if i < 0 then -i else i
  {
    if -128 <= i <= 127 then [i % 256] else IntBytes(i / 256) + [i % 256]
  }

  /** x >> k on a signed value: division that rounds down. */
  function Sar(x: int, k: nat): int
    decreases k
  {
    if k == 0 then x else Sar(x / 2, k - 1)
  }

  lemma {:induction false} SarEight(x: int, k: nat)
    ensures Sar(x, k + 8) == Sar(x / 256, k)
  {
    assert Sar(x, k + 8) == Sar(x / 2, k + 7);
    assert Sar(x / 2, k + 7) == Sar(x / 4, k + 6);
    assert Sar(x / 4, k + 6) == Sar(x / 8, k + 5);
    assert Sar(x / 8, k + 5) == Sar(x / 16, k + 4);
    assert Sar(x / 16, k + 4) == Sar(x / 32, k + 3);
    assert Sar(x / 32, k + 3) == Sar(x / 64, k + 2);
    assert Sar(x / 64, k + 2) == Sar(x / 128, k + 1);
  }

  lemma {:induction false} IntByteAt(i: int, k: nat)
    requires k < |IntBytes(i)|
    ensures IntBytes(i)[|IntBytes(i)| - 1 - k] == Sar(i, k * 8) % 256
    decreases k
  {
    if !(-128 <= i <= 127) && k > 0 {
      IntByteAt(i / 256, k - 1);
      SarEight(i, (k - 1) * 8);
    }
  }

  /** int64Length: two loops, one for each sign. */
  method Int64Length(i: int) returns (numBytes: nat)
    ensures numBytes == |IntBytes(i)|
  {
    numBytes := 1;
    var x := i;
    while x > 127
      invariant numBytes - 1 + |IntBytes(x)| == |IntBytes(i)|
    {
      numBytes := numBytes + 1;
      x := x / 256;
    }
    while x < -128
      invariant x <= 127
      invariant numBytes - 1 + |IntBytes(x)| == |IntBytes(i)|
      decreases -x
    {
      numBytes := numBytes + 1;
      x := x / 256;
    }
  }

  method EncodeInteger(i: int) returns (out: array<byte>)
    ensures fresh(out) && out[..] == IntBytes(i)
  {
    var n := Int64Length(i);
    out := new byte[n];
    var j := 0;
    ghost var digits := IntBytes(i);
    while n > 0
      invariant 0 <= j && j + n == out.Length == |digits|
      invariant out[..j] == digits[..j]
    {
      IntByteAt(i, n - 1);
      out[j] := Sar(i, (n - 1) * 8) % 256;
      assert out[..j + 1] == out[..j] + [out[j]];
      j := j + 1;
      n := n - 1;
    }
  }

  /** The two's complement value of an octet string. */
  function SignedValue(s: bytes): int
  {
    if s == [] then 0
    else if |s| == 1 then if s[0] < 128 then s[0] else s[0] - 256
    else SignedValue(s[..|s| - 1]) * 256 + s[|s| - 1]
  }

  /** Its unsigned value. */
  function UnsignedValue(s: bytes): nat
  {
    if s == [] then 0 else UnsignedValue(s[..|s| - 1]) * 256 + s[|s| - 1]
  }

  lemma {:induction false} SignedVersusUnsigned(s: bytes)
    requires s != []
    ensures UnsignedValue(s) < Pow2(8 * |s|)
    ensures s[0] >= 128 <==> 2 * UnsignedValue(s) >= Pow2(8 * |s|)
    ensures SignedValue(s) == UnsignedValue(s) - if s[0] >= 128 then Pow2(8 * |s|) else 0
  {
    Pow2Eight(8 * |s| - 8);
    if |s| == 1 {
      assert UnsignedValue(s) == s[0] by { assert UnsignedValue(s[..0]) == 0; }
      assert Pow2(0) == 1;
    } else {
      SignedVersusUnsigned(s[..|s| - 1]);
    }
  }

  lemma {:induction false} Pow2Eight(k: nat)
    ensures Pow2(k + 8) == 256 * Pow2(k)
  {
    assert Pow2(k + 8) == 2 * Pow2(k + 7);
    assert Pow2(k + 7) == 2 * Pow2(k + 6);
    assert Pow2(k + 6) == 2 * Pow2(k + 5);
    assert Pow2(k + 5) == 2 * Pow2(k + 4);
    assert Pow2(k + 4) == 2 * Pow2(k + 3);
    assert Pow2(k + 3) == 2 * Pow2(k + 2);
  }

  /** parseInt64: fold the octets into a word, then shift up and down to extend the sign. */
  method ParseInt64(s: bytes) returns (r: Decoded<int>)
    ensures r == if |s| > 8 then Fail(IntegerTooLarge) else Ok(SignedValue(s), |s|)
  {
    if |s| > 8 {
      return Fail(IntegerTooLarge);
    }
    var word := 0;
    for i := 0 to |s|
      invariant word == UnsignedValue(s[..i]) < Pow2(8 * i)
    {
      UnsignedStep(s, i);
      word := PushByte(word, s[i]);
    }
    assert s[..|s|] == s;
    var shift := 64 - 8 * |s|;
    var ret := ToSigned(word * Pow2(shift) % TWO64) / Pow2(shift);
    if s != [] {
      SignedVersusUnsigned(s);
      SignExtended(word, |s|, SignedValue(s));
    } else {
      DivExact(0, Pow2(shift));
    }
    return Ok(ret, |s|);
  }

  lemma {:induction false} UnsignedStep(s: bytes, i: nat)
    requires i < |s| <= 8 && UnsignedValue(s[..i]) < Pow2(8 * i)
    ensures UnsignedValue(s[..i + 1]) == PushByte(UnsignedValue(s[..i]), s[i]) < Pow2(8 * i + 8)
  {
    assert s[..i + 1][..i] == s[..i];
    Pow2Eight(8 * i);
    Pow2Monotone(8 * i + 8, 64);
    WordSizes();
  }

  lemma {:induction false} Pow2Monotone(j: nat, k: nat)
    requires j <= k
    ensures Pow2(j) <= Pow2(k)
    decreases k - j
  {
    if j < k {
      Pow2Monotone(j + 1, k);
    }
  }

  /** Shifting an n-octet word to the top and back is sign extension. */
  lemma {:induction false} SignExtended(word: nat, n: nat, v: int)
    requires 1 <= n <= 8 && word < Pow2(8 * n)
    requires v == if 2 * word >= Pow2(8 * n) then word - Pow2(8 * n) else word
    ensures ToSigned(word * Pow2(64 - 8 * n) % TWO64) / Pow2(64 - 8 * n) == v
  {
    SplitWord(8 * n);
    ShiftUpAndDown(word, v, Pow2(8 * n), Pow2(64 - 8 * n));
  }

  lemma {:induction false} SplitWord(k: nat)
    requires k <= 64
    ensures Pow2(k) * Pow2(64 - k) == TWO64
  {
    if k == 0 {
      WordSizes();
    } else {
      SplitWord(k - 1);
      var a, b := Pow2(k - 1), Pow2(64 - k);
      assert Pow2(65 - k) == 2 * b;
      assert (2 * a) * b == a * (2 * b);
    }
  }

  lemma ShiftUpAndDown(word: nat, v: int, p: nat, q: nat)
    requires p > 0 && q > 0 && p * q == TWO64 && word < p
    requires v == if 2 * word >= p then word - p else word
    ensures ToSigned(word * q % TWO64) / q == v
  {
    assert word * q < p * q by { MulLess(word, p, q); }
    assert word * q % TWO64 == word * q;
    assert 2 * word >= p <==> (2 * word) * q >= p * q by {
      if 2 * word < p { MulLess(2 * word, p, q); } else { MulLeq(p, 2 * word, q); }
    }
    assert (2 * word) * q == 2 * (word * q);
    assert ToSigned(word * q) == v * q by {
      if 2 * word >= p { assert (word - p) * q == word * q - p * q; }
    }
    DivExact(v, q);
  }

  lemma MulLess(a: nat, b: nat, q: nat)
    requires a < b && q > 0
    ensures a * q < b * q
  {
    assert (b - a) * q == b * q - a * q;
  }

  lemma MulLeq(a: nat, b: nat, q: nat)
    requires a <= b
    ensures a * q <= b * q
  {
    assert (b - a) * q == b * q - a * q;
  }

  lemma DivExact(v: int, q: nat)
    requires q > 0
    ensures v * q / q == v
  {
    var d := v * q / q;
    assert (v - d) * q == v * q - d * q;
    if v > d {
      MulLeq(1, v - d, q);
    } else if v < d {
      assert (v - d) * q == -((d - v) * q);
      MulLeq(1, d - v, q);
    }
  }

  /** parseInt64 undoes encodeInteger. */
  lemma {:induction false} IntegerRoundTrip(i: int)
    ensures SignedValue(IntBytes(i)) == i
    decreases if i < 0 then -i else i
  {
    if !(-128 <= i <= 127) {
      IntegerRoundTrip(i / 256);
      assert IntBytes(i)[..|IntBytes(i)| - 1] == IntBytes(i / 256);
    }
  }

  /** No shorter non-empty octet string has the same value (section 8.3.2 of X.690). */
  lemma {:induction false} IntegerMinimal(i: int, s: bytes)
    requires s != [] && SignedValue(s) == i
    ensures |IntBytes(i)| <= |s|
    decreases |s|
  {
    if |s| > 1 {
      IntegerMinimal(i / 256, s[..|s| - 1]);
    }
  }

  /** An int64 takes at most the eight octets parseInt64 accepts. */
  lemma {:induction false} IntegerFits(i: int)
    requires -TWO63 <= i < TWO63
    ensures |IntBytes(i)| <= 8
  {
    WordSizes();
    IntegerFitsIn(i, 8);
  }

  lemma {:induction false} IntegerFitsIn(i: int, n: nat)
    requires n > 0 && 0 <= i + Pow2(8 * n - 1) && i < Pow2(8 * n - 1)
    ensures |IntBytes(i)| <= n
    decreases n
  {
    if !(-128 <= i <= 127) {
      assert Pow2(7) == 128;
      Pow2Eight(8 * n - 9);
      IntegerFitsIn(i / 256, n - 1);
    }
  }
}
