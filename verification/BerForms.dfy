/**
 The other forms of BER that the reader accepts, in literal octets: lengths of any number of octets,
 indefinite lengths at any node, and what the contents of the universal types mean (sections 8.1.2, 8.1.3,
 8.2 and 8.3 of ITU-T X.690).
 */
module BerForms {
  import opened Base
  import opened BerPrimitives
  import opened BerTree

  // ------------------------------------------------------------------ numbers in octets

  function Pow256(n: nat): nat
  {
    if n == 0 then 1 else 256 * Pow256(n - 1)
  }

  /** The n octets of a number, the most significant first. */
  function Octets(v: int, n: nat): (r: bytes)
    ensures |r| == n
    decreases n
  {
    if n == 0 then [] else Octets(v / 256, n - 1) + [v % 256]
  }

  lemma PowersOf256()
    ensures Pow256(1) == 256 && Pow256(2) == 0x1_0000 && Pow256(4) == 0x1_0000_0000 && Pow256(8) == 0x1_0000_0000_0000_0000
  {
    assert Pow256(2) == 256 * Pow256(1) && Pow256(3) == 256 * Pow256(2) && Pow256(4) == 256 * Pow256(3);
    assert Pow256(5) == 256 * Pow256(4) && Pow256(6) == 256 * Pow256(5) && Pow256(7) == 256 * Pow256(6);
  }

  lemma PowGrows(m: nat, n: nat)
    requires m <= n
    ensures 1 <= Pow256(m) <= Pow256(n)
  {
    if m < n {
      PowGrows(m, n - 1);
    } else if n > 0 {
      PowGrows(m - 1, n - 1);
    }
  }

  /** However many zeros they start with, the octets of a number are pushed together to it. */
  lemma {:induction false} OctetsPushed(v: nat, n: nat)
    requires n <= 8 && v < Pow256(n)
    ensures PushBytes(0, Octets(v, n)) == v
    decreases n
  {
    if n > 0 {
      OctetsPushed(v / 256, n - 1);
      PushBytesSnoc(0, Octets(v / 256, n - 1), v % 256);
      PowersOf256();
      PowGrows(n, 8);
      assert v == v / 256 * 256 + v % 256;
    }
  }

  /** A length below 128 in one octet; any length in one to eight octets after their number. */
  lemma LengthForms(length: nat, n: nat, rest: bytes)
    requires length < TWO63
    ensures length < 128 ==> DecodeLength([length] + rest) == Ok(length, 1)
    ensures 1 <= n <= 8 && length < Pow256(n) ==> DecodeLength([128 + n] + Octets(length, n) + rest) == Ok(length, n + 1)
    ensures DecodeLength([0x80] + rest) == Ok(-1, 1)
  {
    hide PushBytes;
    if 1 <= n <= 8 && length < Pow256(n) {
      var s := [128 + n] + Octets(length, n) + rest;
      assert s[0] == 128 + n && s[1..n + 1] == Octets(length, n);
      OctetsPushed(length, n);
    }
  }

  lemma {:induction false} FewestOctets(v: nat, n: nat)
    requires n > 0 && v < Pow256(n) && (n > 1 ==> Pow256(n - 1) <= v)
    ensures UintBytes(v) == Octets(v, n)
    decreases n
  {
    if n > 1 {
      PowersOf256();
      PowGrows(1, n - 1);
      assert n > 2 ==> Pow256(n - 1) == 256 * Pow256(n - 2);
      FewestOctets(v / 256, n - 1);
    } else {
      assert Octets(v / 256, 0) == [];
    }
  }

  /** The writer's lengths: one octet below 128, and otherwise as few as hold the length. */
  lemma WrittenLength(length: nat, n: nat)
    requires 1 <= n <= 8 && length < Pow256(n) && (n > 1 ==> Pow256(n - 1) <= length)
    ensures EncodeLength(length) == if length < 128 then [length] else [128 + n] + Octets(length, n)
  {
    PowersOf256();
    PowGrows(1, n);
    if n > 1 {
      PowGrows(1, n - 1);
    }
    FewestOctets(length, n);
    assert Octets(length / 256, 0) == [];
  }

  /** Any two's complement form of an integer has its value, however much longer than necessary. */
  lemma {:induction false} IntegerForms(i: int, n: nat)
    requires n > 0 && -(128 * Pow256(n - 1)) <= i < 128 * Pow256(n - 1)
    ensures SignedValue(Octets(i, n)) == i
    decreases n
  {
    var s := Octets(i, n);
    if n > 1 {
      assert Pow256(n - 1) == 256 * Pow256(n - 2);
      IntegerForms(i / 256, n - 1);
      assert s[..n - 1] == Octets(i / 256, n - 1);
    } else {
      assert Octets(i / 256, 0) == [];
    }
  }

  // ------------------------------------------------------------------ identifiers

  function ClassNumber(c: Class): nat
  {
    match c case Universal => 0 case Application => 1 case Context => 2 case Private => 3
  }

  /** One octet for a tag below 31: two bits for the class, one for the kind and five for the tag. */
  lemma LowTag(id: Identifier, rest: bytes)
    requires id.tag < 31
    ensures var b := 64 * ClassNumber(id.class_) + (if id.kind == Constructed then 32 else 0) + id.tag;
            EncodeIdentifier(id) == [b] && DecodeIdentifier([b] + rest) == Ok(id, 1)
  {
  }

  /** The number in groups of seven bits, the most significant first. */
  function SevenBits(gs: bytes): nat
  {
    if gs == [] then 0 else 128 * SevenBits(gs[..|gs| - 1]) + gs[|gs| - 1] % 128
  }

  /** Groups that go on, but for the last one, and do not start with zero. */
  predicate Groups(gs: bytes)
  {
    && 0 < |gs| <= 9 && gs[0] % 128 != 0 && gs[|gs| - 1] < 128
    && forall i :: 0 <= i < |gs| - 1 ==> gs[i] >= 128
  }

  lemma {:induction false} GroupsRead(done: bytes, gs: bytes, rest: bytes)
    requires gs != [] && |done| + |gs| <= 9 && gs[|gs| - 1] < 128 && (forall i :: 0 <= i < |gs| - 1 ==> gs[i] >= 128)
    requires done == [] ==> gs[0] % 128 != 0
    ensures DecodeTag(gs + rest, SevenBits(done), |done|) == Ok(SevenBits(done + gs), |gs|)
    decreases |gs|
  {
    var s, g := gs + rest, gs[0];
    assert (done + [g])[..|done|] == done;
    if |gs| == 1 {
      assert done + gs == done + [g];
    } else {
      assert s[1..] == gs[1..] + rest;
      assert (done + [g]) + gs[1..] == done + gs;
      GroupsRead(done + [g], gs[1..], rest);
    }
  }

  function LeadOf(c: Class, kind: Kind): (b: byte)
    ensures b % 32 == 31 && ClassOf(b) == c && KindOf(b) == kind
  {
    64 * ClassNumber(c) + (if kind == Constructed then 32 else 0) + 31
  }

  /** A lead octet with five bits set, then up to nine groups: the tag is the number they hold. */
  lemma HighTag(c: Class, kind: Kind, gs: bytes, rest: bytes)
    requires Groups(gs)
    ensures DecodeIdentifier([LeadOf(c, kind)] + gs + rest) == Ok(Identifier(c, kind, SevenBits(gs)), 1 + |gs|)
  {
    hide DecodeTag, SevenBits, LeadOf, ClassOf, KindOf;
    var s := [LeadOf(c, kind)] + gs + rest;
    assert s[0] == LeadOf(c, kind) && s[1..] == gs + rest;
    NoGroups();
    GroupsRead([], gs, rest);
    assert [] + gs == gs;
  }

  lemma NoGroups()
    ensures SevenBits([]) == 0
  {
  }

  // ------------------------------------------------------------------ contents

  /** The content octets that are all zero. */
  predicate AllZero(s: bytes)
  {
    forall i :: 0 <= i < |s| ==> s[i] == 0
  }

  lemma {:induction false} ZeroValue(s: bytes)
    ensures SignedValue(s) == 0 <==> AllZero(s)
    decreases |s|
  {
    if |s| > 1 {
      ZeroValue(s[..|s| - 1]);
      if AllZero(s[..|s| - 1]) {
        assert forall i :: 0 <= i < |s| - 1 ==> s[i] == s[..|s| - 1][i];
      } else {
        var i :| 0 <= i < |s| - 1 && s[..|s| - 1][i] != 0;
        assert s[i] != 0;
      }
    }
  }

  /** A packet on one tag octet and one length octet. */
  function Short(tag: nat, content: bytes): bytes
    requires tag < 31 && |content| < 128
  {
    [tag as byte, |content| as byte] + content
  }

  lemma ShortIsRead(tag: nat, content: bytes, rest: bytes)
    requires tag < 31 && |content| < 128
    ensures var id := Identifier(Universal, Primitive, tag);
            DecodePacket(Short(tag, content) + rest) == Ok(Packet(id, ContentValue(id, content), content, []), 2 + |content|)
  {
    hide DecodeIdentifier, DecodeLength, ContentValue;
    var id, s := Identifier(Universal, Primitive, tag), Short(tag, content) + rest;
    assert s == [tag] + ([|content|] + (content + rest));
    LowTag(id, [|content|] + (content + rest));
    assert s[1..] == [|content|] + (content + rest);
    LengthForms(|content|, 1, content + rest);
    assert s[2..2 + |content|] == content;
  }

  /** BOOLEAN, INTEGER, ENUMERATED, OCTET STRING, UTF8String and PrintableString have Go values: whether an octet
      is not zero, the two's complement value, and the content. Past eight octets the first three are false and
      zero, and the other universal types have none. */
  lemma ValuesAre(tag: nat, content: bytes, rest: bytes)
    requires tag < 31 && |content| < 128
    ensures var r := DecodePacket(Short(tag, content) + rest);
            r.Ok? && r.read == 2 + |content| && r.value.data == content
            && r.value.value == if tag == 1 then BoolValue(|content| <= 8 && !AllZero(content))
                                else if tag == 2 || tag == 10 then IntValue(if |content| <= 8 then SignedValue(content) else 0)
                                else if tag == 4 || tag == 12 || tag == 19 then StringValue(content)
                                else NoValue
  {
    hide DecodePacket, Short, SignedValue;
    ShortIsRead(tag, content, rest);
    ZeroValue(content);
  }

  /** So an integer is read from any of its forms of up to eight octets. */
  lemma IntegerIsRead(i: int, n: nat, rest: bytes)
    requires 1 <= n <= 8 && -(128 * Pow256(n - 1)) <= i < 128 * Pow256(n - 1)
    ensures var r := DecodePacket(Short(2, Octets(i, n)) + rest);
            r.Ok? && r.value.value == IntValue(i) && r.read == 2 + n
  {
    hide DecodePacket, Short, SignedValue, Octets;
    ValuesAre(2, Octets(i, n), rest);
    IntegerForms(i, n);
  }

  /** Children of a definite length end exactly on it, and those of an indefinite one with an end marker. */
  lemma {:induction false} ChildrenFill(s: bytes, length: int, contentRead: nat) returns (k: nat)
    requires DecodeChildren(s, length, contentRead).Ok?
    ensures var n := DecodeChildren(s, length, contentRead).read;
            && (length != -1 ==> contentRead + n == length)
            && (length == -1 ==> k <= n && k <= |s| && DecodePacket(s[k..]).Ok? && IsEoc(DecodePacket(s[k..]).value)
                                 && k + DecodePacket(s[k..]).read == n)
    decreases |s|
  {
    hide DecodePacket, IsEoc;
    k := 0;
    if !(length != -1 && contentRead == length) {
      var child := DecodePacket(s);
      assert s[0..] == s;
      if !IsEoc(child.value) {
        k := ChildrenFill(s[child.read..], length, contentRead + child.read);
        k := k + child.read;
        assert length == -1 ==> s[child.read..][k - child.read..] == s[k..];
      }
    }
  }

  /** Whatever is accepted takes exactly the length it declares, if it declares one, and has a primitive's content
      from behind its header on. */
  lemma DeclaredLengthIsTaken(s: bytes)
    requires DecodePacket(s).Ok?
    ensures var p, n := DecodePacket(s).value, DecodePacket(s).read;
            && DecodeHeader(s).Ok? && DecodeHeader(s).value.0 == p.id
            && var h, length := DecodeHeader(s).read, DecodeHeader(s).value.1;
               && (length != -1 ==> n == h + length)
               && (length == -1 ==> p.id.kind == Constructed)
               && (p.id.kind == Primitive ==> h <= n && p.data == s[h..n])
  {
    hide DecodeHeader, DecodeChildren;
    var h, length := DecodeHeader(s).read, DecodeHeader(s).value.1;
    if DecodeHeader(s).value.0.kind == Constructed {
      var k := ChildrenFill(s[h..], length, 0);
    }
  }

  // ------------------------------------------------------------------ trees in any form

  /** How the length of a node is written. */
  datatype LengthForm = OneOctet | Counted(n: nat) | Indefinite

  /** A choice for every node of a tree. */
  datatype Form = Form(length: LengthForm, children: seq<Form>)

  predicate Fits(form: LengthForm, kind: Kind, length: nat)
  {
    match form
    case OneOctet => length < 128
    case Counted(n) => 1 <= n <= 8 && length < Pow256(n) && length < TWO63
    case Indefinite => kind == Constructed
  }

  function LengthIn(form: LengthForm, length: nat): bytes
    requires form.OneOctet? ==> length < 128
    requires form.Counted? ==> form.n <= 8
  {
    match form
    case OneOctet => [length]
    case Counted(n) => [128 + n] + Octets(length, n)
    case Indefinite => [0x80]
  }

  predicate CanSpell(p: Packet, f: Form)
    decreases p, 1
  {
    CanSpellAll(p.children, f.children) && Fits(f.length, p.id.kind, |Content(p, f)|)
  }

  predicate CanSpellAll(cs: seq<Packet>, fs: seq<Form>)
    decreases cs, 0
  {
    |cs| == |fs| && (cs == [] || (CanSpell(cs[0], fs[0]) && CanSpellAll(cs[1..], fs[1..])))
  }

  function Content(p: Packet, f: Form): bytes
    requires CanSpellAll(p.children, f.children)
    decreases p, 0
  {
    if p.id.kind == Constructed then SpellAll(p.children, f.children) else p.data
  }

  /** The packet in this form: identifier, length, content, and two zeros after an indefinite length. */
  function Spell(p: Packet, f: Form): bytes
    requires CanSpell(p, f)
    decreases p, 2
  {
    EncodeIdentifier(p.id) + LengthIn(f.length, |Content(p, f)|) + Content(p, f) + if f.length == Indefinite then [0, 0] else []
  }

  function SpellAll(cs: seq<Packet>, fs: seq<Form>): bytes
    requires CanSpellAll(cs, fs)
    decreases cs, 1
  {
    if cs == [] then [] else Spell(cs[0], fs[0]) + SpellAll(cs[1..], fs[1..])
  }

  /** Two zeros are an end marker. */
  lemma EndMarker(rest: bytes)
    ensures var r := DecodePacket([0, 0] + rest); r.Ok? && r.read == 2 && IsEoc(r.value)
  {
    ShortIsRead(0, [], rest);
    assert [0, 0] + [] == [0, 0];
  }

  lemma LengthIsRead(form: LengthForm, kind: Kind, length: nat, rest: bytes)
    requires Fits(form, kind, length)
    ensures DecodeLength(LengthIn(form, length) + rest) == Ok(if form == Indefinite then -1 else length, |LengthIn(form, length)|)
  {
    hide DecodeLength, Octets, Pow256;
    match form
    case OneOctet => LengthForms(length, 1, rest);
    case Counted(n) => LengthForms(length, n, rest);
    case Indefinite => LengthForms(0, 1, rest);
  }

  lemma SpelledHeader(p: Packet, f: Form, rest: bytes)
    requires CanSpell(p, f) && p.id.tag < TWO64 && TagRoundTrips(p.id.tag)
    ensures var content, h := Content(p, f), |EncodeIdentifier(p.id)| + |LengthIn(f.length, |Content(p, f)|)|;
            var s, end := Spell(p, f) + rest, if f.length == Indefinite then [0, 0] else [];
            && DecodeHeader(s) == Ok((p.id, if f.length == Indefinite then -1 else |content|), h)
            && s[h..] == content + (end + rest) && |Spell(p, f)| == h + |content| + |end|
  {
    hide EncodeIdentifier, DecodeIdentifier, DecodeLength, Content, CanSpellAll, Pow256, Octets, LengthIn, TagRoundTrips;
    var content, id, len := Content(p, f), EncodeIdentifier(p.id), LengthIn(f.length, |Content(p, f)|);
    var end := if f.length == Indefinite then [0, 0] else [];
    var s := Spell(p, f) + rest;
    assert s == id + (len + (content + (end + rest)));
    IdentifierRoundTrip(p.id, len + (content + (end + rest)));
    assert s[|id|..] == len + (content + (end + rest));
    LengthIsRead(f.length, p.id.kind, |content|, content + (end + rest));
    assert s[|id| + |len|..] == content + (end + rest);
  }

  /** Every form of every tree is read as the tree: the lengths of its nodes short, long with any number of
      octets up to eight, or, for constructed ones, indefinite, whatever follows. */
  lemma {:induction false} FormsAreRead(p: Packet, f: Form, rest: bytes)
    requires Sized(p) && Good(p) && CanSpell(p, f)
    ensures DecodePacket(Spell(p, f) + rest) == Ok(Normal(p), |Spell(p, f)|)
    decreases p, 1
  {
    hide DecodeHeader, EncodeIdentifier, LengthIn, Spell, IsEoc;
    var end := if f.length == Indefinite then [0, 0] else [];
    var h := |EncodeIdentifier(p.id)| + |LengthIn(f.length, |Content(p, f)|)|;
    SpelledHeader(p, f, rest);
    var s := Spell(p, f) + rest;
    if p.id.kind == Constructed {
      ChildFormsAreRead(p.children, f.children, end, rest, if f.length == Indefinite then -1 else |Content(p, f)|, 0);
      NormalKeepsBytes(p.children);
    } else {
      assert s[h..h + |p.data|] == s[h..][..|p.data|] == p.data;
    }
  }

  lemma {:induction false} ChildFormsAreRead(cs: seq<Packet>, fs: seq<Form>, end: bytes, rest: bytes,
                                             length: int, contentRead: nat)
    requires CanSpellAll(cs, fs) && forall c <- cs :: GoodChild(c)
    requires if length == -1 then end == [0, 0] else end == [] && contentRead + |SpellAll(cs, fs)| == length
    ensures DecodeChildren(SpellAll(cs, fs) + (end + rest), length, contentRead) == Ok(NormalAll(cs), |SpellAll(cs, fs)| + |end|)
    decreases cs, 0
  {
    hide DecodePacket, DecodeHeader, Spell, CanSpell, Normal, Good, Sized, WellBuilt;
    var s := SpellAll(cs, fs) + (end + rest);
    if cs == [] {
      assert s == end + rest;
      NoneLeft(end, rest, length, contentRead);
    } else {
      var c, tail := cs[0], SpellAll(cs[1..], fs[1..]) + (end + rest);
      var n := |Spell(c, fs[0])|;
      assert GoodChild(c);
      assert s == Spell(c, fs[0]) + tail && s[n..] == tail;
      FormsAreRead(c, fs[0], tail);
      NotAMarker(c);
      SpellsSome(c, fs[0]);
      ChildFormsAreRead(cs[1..], fs[1..], end, rest, length, contentRead + n);
      ContentTurnOk(s, length, contentRead, Normal(c), n, tail, NormalAll(cs[1..]), |SpellAll(cs[1..], fs[1..])| + |end|);
    }
  }

  lemma NoneLeft(end: bytes, rest: bytes, length: int, contentRead: nat)
    requires if length == -1 then end == [0, 0] else end == [] && contentRead == length
    ensures DecodeChildren(end + rest, length, contentRead) == Ok([], |end|)
  {
    hide DecodePacket;
    EndMarker(rest);
  }

  lemma NotAMarker(c: Packet)
    requires !IsEoc(c)
    ensures !IsEoc(Normal(c))
  {
  }

  lemma SpellsSome(p: Packet, f: Form)
    requires CanSpell(p, f)
    ensures |Spell(p, f)| > 0
  {
    hide Content, CanSpell;
  }
}
