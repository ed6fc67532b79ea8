/**
 The binary form of macaroons and of slices of them (macaroon.v1/marshal.go): what is written, and what
 the loop over its packets makes of it.
 */
module MacaroonBinary {
  import opened Base
  import opened MacaroonPackets
  import V = MacaroonVerify

  const LOCATION: bytes := [108, 111, 99, 97, 116, 105, 111, 110]
  const IDENTIFIER: bytes := [105, 100, 101, 110, 116, 105, 102, 105, 101, 114]
  const SIGNATURE: bytes := [115, 105, 103, 110, 97, 116, 117, 114, 101]
  const CAVEAT_ID: bytes := [99, 105, 100]
  const VERIFICATION_ID: bytes := [118, 105, 100]
  const CAVEAT_LOCATION: bytes := [99, 108]

  /** A caveat as three references into the data. */
  datatype CaveatRef = CaveatRef(location: Packet, caveatId: Packet, verificationId: Packet)

  const NO_CAVEAT := CaveatRef(NO_PACKET, NO_PACKET, NO_PACKET)

  /** The fields of a macaroon object. */
  datatype Fields = Fields(data: bytes, location: Packet, id: Packet, caveats: seq<CaveatRef>, sig: bytes)

  // ------------------------------------------------------------------ reading

  /** The three kinds of packet between the identifier and the signature. */
  datatype Kind = CaveatId | VerificationId | CaveatLocation

  function FieldOf(kind: Kind): bytes
  {
    match kind
    case CaveatId => CAVEAT_ID
    case VerificationId => VERIFICATION_ID
    case CaveatLocation => CAVEAT_LOCATION
  }

  function KindOf(field: bytes): Option<Kind>
  {
    if field == CAVEAT_ID then Some(CaveatId)
    else if field == VERIFICATION_ID then Some(VerificationId)
    else if field == CAVEAT_LOCATION then Some(CaveatLocation)
    else None
  }

  /** The caveat being read, once it has an identifier. */
  function Pending(cav: CaveatRef): seq<CaveatRef>
  {
    if cav.caveatId.totalLen != 0 then [cav] else []
  }

  /** Taking one packet into the caveat being read. The caveat is not reset when an identifier starts
      the next one; a second verification id or location is an error. */
  function Take(cav: CaveatRef, kind: Kind, p: Packet): Option<CaveatRef>
  {
    match kind
    case CaveatId => Some(cav.(caveatId := p))
    case VerificationId => if cav.verificationId.totalLen != 0 then None else Some(cav.(verificationId := p))
    case CaveatLocation => if cav.location.totalLen != 0 then None else Some(cav.(location := p))
  }

  /** The caveat an identifier completes. */
  function Completed(cav: CaveatRef, kind: Kind): seq<CaveatRef>
  {
    if kind == CaveatId then Pending(cav) else []
  }

  /** The loop of unmarshalBinaryNoCopy from a position: the caveats, and the signature's packet. */
  function ParseCaveats(data: bytes, start: nat, cav: CaveatRef): (r: Parsing<(seq<CaveatRef>, Packet)>)
    requires start <= |data|
    ensures r.Parsed? ==>
              && start <= r.value.1.start <= |data|
              && ParsePacket(data, r.value.1.start) == Parsed(r.value.1)
              && FieldName(data, r.value.1) == SIGNATURE
    decreases |data| - start
  {
    match ParsePacket(data, start)
    case Failed => Failed
    case Panicked => Panicked
    case Parsed(p) =>
      if FieldName(data, p) == SIGNATURE then Parsed((Pending(cav), p))
      else
        match KindOf(FieldName(data, p))
        case None => Failed
        case Some(kind) =>
          match Take(cav, kind, p)
          case None => Failed
          case Some(next) => After(Completed(cav, kind), ParseCaveats(data, start + p.totalLen, next))
  }

  function After(before: seq<CaveatRef>, r: Parsing<(seq<CaveatRef>, Packet)>): Parsing<(seq<CaveatRef>, Packet)>
  {
    if r.Parsed? then Parsed((before + r.value.0, r.value.1)) else r
  }

  function ExpectPacket(data: bytes, start: nat, kind: bytes): (r: Parsing<Packet>)
    requires start <= |data|
    ensures r.Parsed? ==> ParsePacket(data, start) == r && FieldName(data, r.value) == kind
  {
    var r := ParsePacket(data, start);
    if r.Parsed? && FieldName(data, r.value) != kind then Failed else r
  }

  /** unmarshalBinaryNoCopy into a macaroon that has no caveats. */
  function Unmarshal(data: bytes): (r: Parsing<Fields>)
    ensures r.Parsed? ==> |r.value.sig| == V.HASH_LEN
  {
    match ExpectPacket(data, 0, LOCATION)
    case Failed => Failed
    case Panicked => Panicked
    case Parsed(location) =>
      match ExpectPacket(data, location.totalLen, IDENTIFIER)
      case Failed => Failed
      case Panicked => Panicked
      case Parsed(id) =>
        match ParseCaveats(data, location.totalLen + id.totalLen, NO_CAVEAT)
        case Failed => Failed
        case Panicked => Panicked
        case Parsed((caveats, p)) =>
          var sig := DataBytes(data, p);
          if |sig| != V.HASH_LEN then Failed
          else Parsed(Fields(data[..p.start], location, id, caveats, sig))
  }

  // ------------------------------------------------------------------ writing

  /** appendBinary onto nothing; a signature always fits. */
  function Marshal(m: Fields): (r: bytes)
    requires |m.sig| == V.HASH_LEN
    ensures |r| == |m.data| + 47
  {
    m.data + RawPacket(SIGNATURE, m.sig)
  }

  datatype Item = Item(kind: Kind, payload: bytes)

  function ItemSize(item: Item): nat
  {
    PacketSize(FieldOf(item.kind), item.payload)
  }

  predicate ItemsFit(items: seq<Item>)
  {
    forall i :: 0 <= i < |items| ==> ItemSize(items[i]) <= MAX_PACKET_LEN
  }

  function ItemBytes(items: seq<Item>): bytes
    requires ItemsFit(items)
  {
    if items == [] then []
    else RawPacket(FieldOf(items[0].kind), items[0].payload) + ItemBytes(items[1..])
  }

  function One(kind: Kind, payload: bytes): seq<Item>
  {
    if payload == [] then [] else [Item(kind, payload)]
  }

  /** The packets appendCaveat writes: none for an empty part. */
  function Items(cav: V.Caveat): seq<Item>
  {
    One(CaveatId, cav.id) + One(VerificationId, cav.vid) + One(CaveatLocation, cav.location)
  }

  function AllItems(cavs: seq<V.Caveat>): seq<Item>
  {
    if cavs == [] then [] else Items(cavs[0]) + AllItems(cavs[1..])
  }

  function Size(kind: Kind, payload: bytes): nat
  {
    if payload == [] then 0 else PacketSize(FieldOf(kind), payload)
  }

  function Ref(at: nat, kind: Kind, payload: bytes): Packet
  {
    if payload == [] then NO_PACKET else PacketRef(at, FieldOf(kind), payload)
  }

  function CaveatSize(cav: V.Caveat): nat
  {
    Size(CaveatId, cav.id) + Size(VerificationId, cav.vid) + Size(CaveatLocation, cav.location)
  }

  /** The references to a caveat written at a position, and to consecutive caveats. */
  function RefOf(at: nat, cav: V.Caveat): CaveatRef
  {
    var vidAt := at + Size(CaveatId, cav.id);
    CaveatRef(Ref(vidAt + Size(VerificationId, cav.vid), CaveatLocation, cav.location),
              Ref(at, CaveatId, cav.id), Ref(vidAt, VerificationId, cav.vid))
  }

  function Refs(at: nat, cavs: seq<V.Caveat>): (r: seq<CaveatRef>)
    ensures |r| == |cavs|
    decreases |cavs|
  {
    if cavs == [] then [] else [RefOf(at, cavs[0])] + Refs(at + CaveatSize(cavs[0]), cavs[1..])
  }

  /** Every packet of the macaroon is within the size limit, and no packet is written for an empty part. */
  predicate Fits(v: V.Macaroon)
  {
    && (forall i :: 0 <= i < |v.caveats| ==> !v.caveats[i].emptyVid)
    && PacketSize(LOCATION, v.location) <= MAX_PACKET_LEN
    && PacketSize(IDENTIFIER, v.id) <= MAX_PACKET_LEN
    && ItemsFit(AllItems(v.caveats))
    && |v.sig| == V.HASH_LEN
  }

  function HeaderSize(v: V.Macaroon): nat
  {
    PacketSize(LOCATION, v.location) + PacketSize(IDENTIFIER, v.id)
  }

  /** The object that New and the caveat methods build for a macaroon. */
  function Layout(v: V.Macaroon): (m: Fields)
    requires Fits(v)
    ensures |m.sig| == V.HASH_LEN
  {
    Fields(RawPacket(LOCATION, v.location) + RawPacket(IDENTIFIER, v.id) + ItemBytes(AllItems(v.caveats)),
           PacketRef(0, LOCATION, v.location),
           PacketRef(PacketSize(LOCATION, v.location), IDENTIFIER, v.id),
           Refs(HeaderSize(v), v.caveats), v.sig)
  }

  // ------------------------------------------------------------------ the caveat loop on packets

  /** What the caveat loop makes of a list of packets; None when it reports a repeated field. */
  function Run(items: seq<Item>, at: nat, cav: CaveatRef): Option<seq<CaveatRef>>
    decreases |items|
  {
    if items == [] then Some(Pending(cav))
    else
      var item := items[0];
      match Take(cav, item.kind, PacketRef(at, FieldOf(item.kind), item.payload))
      case None => None
      case Some(next) =>
        match Run(items[1..], at + ItemSize(item), next)
        case None => None
        case Some(rest) => Some(Completed(cav, item.kind) + rest)
  }

  /** The items stand in the data at a position. */
  predicate ItemsAt(data: bytes, at: nat, items: seq<Item>)
  {
    && ItemsFit(items)
    && at + |ItemBytes(items)| <= |data|
    && data[at..at + |ItemBytes(items)|] == ItemBytes(items)
  }

  lemma FirstItemAt(data: bytes, at: nat, items: seq<Item>)
    requires items != [] && ItemsAt(data, at, items)
    ensures PacketAt(data, at, FieldOf(items[0].kind), items[0].payload)
    ensures ItemsAt(data, at + ItemSize(items[0]), items[1..])
    ensures |ItemBytes(items)| == ItemSize(items[0]) + |ItemBytes(items[1..])|
  {
    hide RawPacket, FieldOf;
    var n, all := ItemSize(items[0]), ItemBytes(items);
    assert all[..n] == RawPacket(FieldOf(items[0].kind), items[0].payload);
    assert all[n..] == ItemBytes(items[1..]);
    Slices(data, at, 0, n, |all|);
    Slices(data, at, n, |all|, |all|);
  }

  lemma FieldsDiffer(kind: Kind)
    ensures FieldLike(FieldOf(kind)) && FieldOf(kind) != SIGNATURE && KindOf(FieldOf(kind)) == Some(kind)
    ensures FieldLike(LOCATION) && FieldLike(IDENTIFIER) && FieldLike(SIGNATURE)
  {
    assert CAVEAT_ID[0] == 99 && VERIFICATION_ID[0] == 118 && SIGNATURE[0] == 115;
  }

  /** The parser, on packets followed by a signature, does what Run says. */
  lemma {:induction false} ParseRuns(data: bytes, at: nat, items: seq<Item>, cav: CaveatRef, sig: bytes)
    requires ItemsAt(data, at, items)
    requires PacketAt(data, at + |ItemBytes(items)|, SIGNATURE, sig)
    ensures ParseCaveats(data, at, cav)
         == match Run(items, at, cav)
            case None => Failed
            case Some(caveats) => Parsed((caveats, PacketRef(at + |ItemBytes(items)|, SIGNATURE, sig)))
    decreases |items|
  {
    hide ParsePacket, FieldName, RawPacket, PacketAt, FieldOf, KindOf, Pending;
    if items == [] {
      FieldsDiffer(CaveatId);
      PacketParses(data, at, SIGNATURE, sig);
    } else {
      var kind := items[0].kind;
      FieldsDiffer(kind);
      FirstItemAt(data, at, items);
      PacketParses(data, at, FieldOf(kind), items[0].payload);
      var next := Take(cav, kind, PacketRef(at, FieldOf(kind), items[0].payload));
      if next.Some? {
        ParseRuns(data, at + ItemSize(items[0]), items[1..], next.value, sig);
      }
    }
  }

  // ------------------------------------------------------------------ which caveats are restored

  function CountIds(items: seq<Item>): nat
  {
    if items == [] then 0 else (if items[0].kind == CaveatId then 1 else 0) + CountIds(items[1..])
  }

  /** The loop returns one caveat for each identifier. */
  lemma {:induction false} RunCounts(items: seq<Item>, at: nat, cav: CaveatRef)
    ensures Run(items, at, cav).Some? ==> |Run(items, at, cav).value| == |Pending(cav)| + CountIds(items)
    decreases |items|
  {
    if items != [] {
      var item := items[0];
      var next := Take(cav, item.kind, PacketRef(at, FieldOf(item.kind), item.payload));
      if next.Some? {
        RunCounts(items[1..], at + ItemSize(item), next.value);
      }
    }
  }

  /** Once read, a verification id or location is part of every later caveat. */
  lemma {:induction false} RunIsSticky(items: seq<Item>, at: nat, cav: CaveatRef)
    ensures Run(items, at, cav).Some? ==>
              forall k :: 0 <= k < |Run(items, at, cav).value| ==>
                && (cav.verificationId.totalLen != 0 ==> Run(items, at, cav).value[k].verificationId == cav.verificationId)
                && (cav.location.totalLen != 0 ==> Run(items, at, cav).value[k].location == cav.location)
    decreases |items|
  {
    if items != [] {
      var item := items[0];
      var next := Take(cav, item.kind, PacketRef(at, FieldOf(item.kind), item.payload));
      if next.Some? {
        RunIsSticky(items[1..], at + ItemSize(item), next.value);
      }
    }
  }

  function WithPrefix(before: seq<CaveatRef>, r: Option<seq<CaveatRef>>): Option<seq<CaveatRef>>
  {
    if r.None? then None else Some(before + r.value)
  }

  lemma NoPrefix(r: Option<seq<CaveatRef>>)
    ensures WithPrefix([], r) == r
  {
    if r.Some? {
      assert [] + r.value == r.value;
    }
  }

  lemma RunOne(kind: Kind, payload: bytes, rest: seq<Item>, at: nat, cav: CaveatRef)
    ensures Run(One(kind, payload) + rest, at, cav)
         == if payload == [] then Run(rest, at, cav)
            else match Take(cav, kind, Ref(at, kind, payload))
                 case None => None
                 case Some(next) => WithPrefix(Completed(cav, kind), Run(rest, at + Size(kind, payload), next))
  {
    if payload == [] {
      assert One(kind, payload) + rest == rest;
    } else {
      assert (One(kind, payload) + rest)[1..] == rest;
    }
  }

  /** A caveat with an identifier, read after one that carries nothing over. */
  lemma RunCaveat(c: V.Caveat, rest: seq<Item>, at: nat, cav: CaveatRef)
    requires c.id != [] && cav.verificationId == NO_PACKET && cav.location == NO_PACKET
    ensures Run(Items(c) + rest, at, cav) == WithPrefix(Pending(cav), Run(rest, at + CaveatSize(c), RefOf(at, c)))
  {
    hide Run;
    var vidAt := at + Size(CaveatId, c.id);
    var locAt := vidAt + Size(VerificationId, c.vid);
    var withId := cav.(caveatId := Ref(at, CaveatId, c.id));
    var withVid := withId.(verificationId := Ref(vidAt, VerificationId, c.vid));
    var tail := One(CaveatLocation, c.location) + rest;
    assert Items(c) + rest == One(CaveatId, c.id) + (One(VerificationId, c.vid) + tail);
    RunOne(CaveatId, c.id, One(VerificationId, c.vid) + tail, at, cav);
    RunOne(VerificationId, c.vid, tail, vidAt, withId);
    RunOne(CaveatLocation, c.location, rest, locAt, withVid);
    NoPrefix(Run(tail, locAt, withVid));
    NoPrefix(Run(rest, at + CaveatSize(c), RefOf(at, c)));
    assert withVid.(location := Ref(locAt, CaveatLocation, c.location)) == RefOf(at, c);
  }

  predicate HaveIds(cavs: seq<V.Caveat>)
  {
    forall i :: 0 <= i < |cavs| ==> cavs[i].id != []
  }

  /** Only the last caveat has a verification id or a location. */
  predicate PlainButLast(cavs: seq<V.Caveat>)
  {
    forall i :: 0 <= i < |cavs| - 1 ==> cavs[i].vid == [] && cavs[i].location == []
  }

  predicate Restorable(cavs: seq<V.Caveat>)
  {
    HaveIds(cavs) && PlainButLast(cavs)
  }

  lemma RestIsPlainButLast(cavs: seq<V.Caveat>)
    requires cavs != [] && HaveIds(cavs)
    ensures HaveIds(cavs[1..])
    ensures |cavs| > 1 ==>
              (PlainButLast(cavs) <==> cavs[0].vid == [] && cavs[0].location == [] && PlainButLast(cavs[1..]))
  {
    var rest := cavs[1..];
    assert forall i :: 0 <= i < |rest| ==> rest[i] == cavs[i + 1];
    if |cavs| > 1 && cavs[0].vid == [] && cavs[0].location == [] && PlainButLast(rest) {
      forall i | 0 <= i < |cavs| - 1
        ensures cavs[i].vid == [] && cavs[i].location == []
      {
        if i > 0 {
          assert cavs[i] == rest[i - 1];
        }
      }
    }
  }

  /** After an earlier caveat with more than an identifier, the next one is never read back. */
  lemma CarriedOver(c: V.Caveat, rest: seq<V.Caveat>, at: nat)
    requires rest != [] && (c.vid != [] || c.location != [])
    ensures Run(AllItems(rest), at + CaveatSize(c), RefOf(at, c)) != Some([RefOf(at, c)] + Refs(at + CaveatSize(c), rest))
  {
    hide Run, AllItems;
    var cav, after := RefOf(at, c), at + CaveatSize(c);
    RunIsSticky(AllItems(rest), after, cav);
    var wanted := [cav] + Refs(after, rest);
    assert wanted[1] == RefOf(after, rest[0]);
  }

  lemma {:induction false} RunRestores(cavs: seq<V.Caveat>, at: nat, cav: CaveatRef)
    requires HaveIds(cavs) && cav.verificationId == NO_PACKET && cav.location == NO_PACKET
    ensures Run(AllItems(cavs), at, cav) == Some(Pending(cav) + Refs(at, cavs)) <==> PlainButLast(cavs)
    decreases |cavs|
  {
    if cavs == [] {
      assert Pending(cav) + Refs(at, cavs) == Pending(cav);
    } else {
      var c, rest, next := cavs[0], cavs[1..], RefOf(at, cavs[0]);
      RestIsPlainButLast(cavs);
      RunCaveat(c, AllItems(rest), at, cav);
      var refs := [next] + Refs(at + CaveatSize(c), rest);
      assert Refs(at, cavs) == refs;
      assert AllItems(cavs) == Items(c) + AllItems(rest);
      SamePrefix(Pending(cav), Run(AllItems(rest), at + CaveatSize(c), next), refs);
      if c.vid == [] && c.location == [] {
        RunRestores(rest, at + CaveatSize(c), next);
      } else if rest == [] {
        assert refs == [next];
      } else {
        CarriedOver(c, rest, at);
      }
    }
  }

  lemma SamePrefix(before: seq<CaveatRef>, r: Option<seq<CaveatRef>>, refs: seq<CaveatRef>)
    ensures WithPrefix(before, r) == Some(before + refs) <==> r == Some(refs)
  {
    if WithPrefix(before, r) == Some(before + refs) {
      assert r.value == (before + r.value)[|before|..] == refs;
    }
  }

  lemma {:induction false} CountAllIds(cavs: seq<V.Caveat>)
    ensures CountIds(AllItems(cavs)) <= |cavs|
    ensures CountIds(AllItems(cavs)) == |cavs| <==> HaveIds(cavs)
  {
    if cavs != [] {
      var c, rest := cavs[0], cavs[1..];
      CountAllIds(rest);
      CountCaveat(c, AllItems(rest));
      assert forall i :: 0 <= i < |rest| ==> rest[i] == cavs[i + 1];
      if c.id != [] && HaveIds(rest) {
        forall i | 0 <= i < |cavs|
          ensures cavs[i].id != []
        {
          if i > 0 {
            assert cavs[i] == rest[i - 1];
          }
        }
      }
    }
  }

  lemma CountCaveat(c: V.Caveat, rest: seq<Item>)
    ensures CountIds(Items(c) + rest) == (if c.id == [] then 0 else 1) + CountIds(rest)
  {
    var tail := One(CaveatLocation, c.location) + rest;
    assert Items(c) + rest == One(CaveatId, c.id) + (One(VerificationId, c.vid) + tail);
    CountOne(CaveatId, c.id, One(VerificationId, c.vid) + tail);
    CountOne(VerificationId, c.vid, tail);
    CountOne(CaveatLocation, c.location, rest);
  }

  lemma CountOne(kind: Kind, payload: bytes, rest: seq<Item>)
    ensures CountIds(One(kind, payload) + rest) == (if kind == CaveatId && payload != [] then 1 else 0) + CountIds(rest)
  {
    if payload == [] {
      assert One(kind, payload) + rest == rest;
    } else {
      assert (One(kind, payload) + rest)[1..] == rest;
    }
  }

  /** The caveats come back exactly when each has an identifier and only the last has more. */
  lemma CaveatsRestored(cavs: seq<V.Caveat>, at: nat)
    ensures Run(AllItems(cavs), at, NO_CAVEAT) == Some(Refs(at, cavs)) <==> Restorable(cavs)
  {
    RunCounts(AllItems(cavs), at, NO_CAVEAT);
    CountAllIds(cavs);
    if HaveIds(cavs) {
      RunRestores(cavs, at, NO_CAVEAT);
      assert Pending(NO_CAVEAT) + Refs(at, cavs) == Refs(at, cavs);
    }
  }

  // ------------------------------------------------------------------ one macaroon

  lemma Stands(pre: bytes, raw: bytes, post: bytes)
    ensures (pre + raw + post)[|pre|..|pre| + |raw|] == raw
  {
  }

  /** The fields of a macaroon whose data holds these packets after the identifier. */
  function WithItems(v: V.Macaroon, items: seq<Item>): (m: Fields)
    requires Fits(v) && ItemsFit(items)
    ensures |m.sig| == V.HASH_LEN
  {
    Layout(v).(data := RawPacket(LOCATION, v.location) + RawPacket(IDENTIFIER, v.id) + ItemBytes(items))
  }

  /** The four parts of a marshalled macaroon stand where they are expected, whatever follows. */
  lemma PartsStand(v: V.Macaroon, items: seq<Item>, rest: bytes)
    requires Fits(v) && ItemsFit(items)
    ensures var data := Marshal(WithItems(v, items)) + rest;
            var end := HeaderSize(v) + |ItemBytes(items)|;
            && PacketAt(data, 0, LOCATION, v.location)
            && PacketAt(data, PacketSize(LOCATION, v.location), IDENTIFIER, v.id)
            && ItemsAt(data, HeaderSize(v), items)
            && PacketAt(data, end, SIGNATURE, v.sig)
            && data[..end] == WithItems(v, items).data
  {
    hide RawPacket, ItemBytes, AllItems, Refs;
    FourStand(RawPacket(LOCATION, v.location), RawPacket(IDENTIFIER, v.id), ItemBytes(items), RawPacket(SIGNATURE, v.sig), rest);
  }

  lemma FourStand(a: bytes, b: bytes, c: bytes, d: bytes, rest: bytes)
    ensures var all, i, j := a + b + c + d + rest, |a| + |b|, |a| + |b| + |c|;
            all[0..|a|] == a && all[|a|..i] == b && all[i..j] == c && all[j..j + |d|] == d && all[..j] == a + b + c
  {
    Stands([], a, b + c + d + rest);
    assert a + b + c + d + rest == [] + a + (b + c + d + rest);
    Stands(a, b, c + d + rest);
    assert a + b + c + d + rest == a + b + (c + d + rest);
    Stands(a + b, c, d + rest);
    assert a + b + c + d + rest == (a + b) + c + (d + rest);
    Stands(a + b + c, d, rest);
  }

  /** Reading marshalled data gives the fields it was written from, except for what Run makes of the
      caveats' packets. */
  lemma ItemsRead(v: V.Macaroon, items: seq<Item>, rest: bytes)
    requires Fits(v) && ItemsFit(items)
    ensures Unmarshal(Marshal(WithItems(v, items)) + rest)
         == match Run(items, HeaderSize(v), NO_CAVEAT)
            case None => Failed
            case Some(caveats) => Parsed(WithItems(v, items).(caveats := caveats))
  {
    hide ParsePacket, FieldName, DataBytes, PacketAt, ItemsAt, Marshal, ItemBytes, AllItems, Refs, Run, RawPacket;
    var data := Marshal(WithItems(v, items)) + rest;
    PartsStand(v, items, rest);
    FieldsDiffer(CaveatId);
    PacketParses(data, 0, LOCATION, v.location);
    PacketParses(data, PacketSize(LOCATION, v.location), IDENTIFIER, v.id);
    AtEnd(data, HeaderSize(v) + |ItemBytes(items)|, v.sig);
    ParseRuns(data, HeaderSize(v), items, NO_CAVEAT, v.sig);
  }

  lemma MarshalledReads(v: V.Macaroon, rest: bytes)
    requires Fits(v)
    ensures Unmarshal(Marshal(Layout(v)) + rest)
         == match Run(AllItems(v.caveats), HeaderSize(v), NO_CAVEAT)
            case None => Failed
            case Some(caveats) => Parsed(Layout(v).(caveats := caveats))
  {
    hide Run, Marshal, Unmarshal;
    ItemsRead(v, AllItems(v.caveats), rest);
  }

  lemma AtEnd(data: bytes, at: nat, sig: bytes)
    requires PacketAt(data, at, SIGNATURE, sig)
    ensures Inside(data, PacketRef(at, SIGNATURE, sig))
    ensures DataBytes(data, PacketRef(at, SIGNATURE, sig)) == sig
  {
    FieldsDiffer(CaveatId);
    PacketParses(data, at, SIGNATURE, sig);
  }

  /** A macaroon reads back as itself, with the rest of the data left over, exactly when every caveat
      has an identifier and no caveat but the last has a verification id or a location. */
  lemma MacaroonRoundTrip(v: V.Macaroon, rest: bytes)
    requires Fits(v)
    ensures Unmarshal(Marshal(Layout(v)) + rest) == Parsed(Layout(v)) <==> Restorable(v.caveats)
  {
    hide Run, Marshal, Unmarshal;
    MarshalledReads(v, rest);
    CaveatsRestored(v.caveats, HeaderSize(v));
  }

  lemma SecondVidIsRefused(cavs: seq<V.Caveat>, at: nat)
    requires |cavs| >= 2 && cavs[0].id != [] && cavs[1].id != [] && cavs[0].vid != [] && cavs[1].vid != []
    ensures Run(AllItems(cavs), at, NO_CAVEAT) == None
  {
    hide Run, One;
    var c, d, tail := cavs[0], cavs[1], cavs[1..];
    var cav, next := RefOf(at, c), at + CaveatSize(c);
    RunCaveat(c, AllItems(tail), at, NO_CAVEAT);
    var more := One(CaveatLocation, d.location) + AllItems(tail[1..]);
    assert AllItems(tail) == One(CaveatId, d.id) + (One(VerificationId, d.vid) + more);
    RunOne(CaveatId, d.id, One(VerificationId, d.vid) + more, next, cav);
    RunOne(VerificationId, d.vid, more, next + Size(CaveatId, d.id), cav.(caveatId := Ref(next, CaveatId, d.id)));
  }

  /** Two third-party caveats are enough: the second verification id is taken for a repeated field. */
  lemma TwoThirdPartyCaveatsAreRefused(v: V.Macaroon, rest: bytes)
    requires Fits(v) && |v.caveats| >= 2 && v.caveats[0].id != [] && v.caveats[1].id != []
    requires v.caveats[0].vid != [] && v.caveats[1].vid != []
    ensures Unmarshal(Marshal(Layout(v)) + rest) == Failed
  {
    hide Marshal, Unmarshal, Run, Layout;
    MarshalledReads(v, rest);
    SecondVidIsRefused(v.caveats, HeaderSize(v));
  }

  // ------------------------------------------------------------------ any accepted data

  /** What is read is exactly what would be written: the canonical form is the only form. */
  lemma AcceptedIsCanonical(data: bytes)
    requires Unmarshal(data).Parsed?
    ensures Marshal(Unmarshal(data).value) <= data
  {
    hide ParseCaveats, ParsePacket, RawPacket, FieldName, DataBytes;
    var m := Unmarshal(data).value;
    var loc := ParsePacket(data, 0).value;
    var id := ParsePacket(data, loc.totalLen).value;
    var p := ParseCaveats(data, loc.totalLen + id.totalLen, NO_CAVEAT).value.1;
    ParsedIsAPacket(data, p.start);
    Joined(data, p.start, p.start + p.totalLen);
  }

  lemma Joined(data: bytes, i: nat, j: nat)
    requires i <= j <= |data|
    ensures data[..i] + data[i..j] == data[..j] <= data
  {
  }

  /** A parse only depends on the packets it reads. */
  lemma ParsePrefix(data: bytes, other: bytes, start: nat, end: nat)
    requires start <= |data| && ParsePacket(data, start).Parsed?
    requires start + ParsePacket(data, start).value.totalLen <= end <= |data| && end <= |other|
    requires data[..end] == other[..end]
    ensures ParsePacket(other, start) == ParsePacket(data, start)
    ensures FieldName(other, ParsePacket(data, start).value) == FieldName(data, ParsePacket(data, start).value)
    ensures DataBytes(other, ParsePacket(data, start).value) == DataBytes(data, ParsePacket(data, start).value)
  {
    hide ParsePacket, RawPacket, FieldName, DataBytes;
    var p := ParsePacket(data, start).value;
    ParsedIsAPacket(data, start);
    assert data[start..start + p.totalLen] == data[..end][start..start + p.totalLen];
    assert other[start..start + p.totalLen] == other[..end][start..start + p.totalLen];
    assert PacketAt(other, start, FieldName(data, p), DataBytes(data, p));
    PacketParses(other, start, FieldName(data, p), DataBytes(data, p));
  }

  lemma {:induction false} ParseCaveatsPrefix(data: bytes, other: bytes, start: nat, cav: CaveatRef, end: nat)
    requires start <= |data| && ParseCaveats(data, start, cav).Parsed?
    requires end <= |data| && end <= |other| && data[..end] == other[..end]
    requires ParseCaveats(data, start, cav).value.1.start + ParseCaveats(data, start, cav).value.1.totalLen <= end
    ensures ParseCaveats(other, start, cav) == ParseCaveats(data, start, cav)
    decreases |data| - start
  {
    hide ParsePacket, FieldName;
    var p := ParsePacket(data, start).value;
    if FieldName(data, p) == SIGNATURE {
      ParsePrefix(data, other, start, end);
    } else {
      var kind := KindOf(FieldName(data, p)).value;
      var next := Take(cav, kind, p).value;
      ParseCaveatsPrefix(data, other, start + p.totalLen, next, end);
      ParsePrefix(data, other, start, end);
    }
  }

  /** Whatever was accepted is accepted again in its written form, with the same fields, before any
      other data. */
  lemma AcceptedReadsAgain(data: bytes, rest: bytes)
    requires Unmarshal(data).Parsed?
    ensures Unmarshal(Marshal(Unmarshal(data).value) + rest) == Unmarshal(data)
  {
    hide ParsePacket, FieldName, DataBytes, RawPacket;
    AcceptedIsCanonical(data);
    var m := Unmarshal(data).value;
    var other := Marshal(m) + rest;
    var loc := ParsePacket(data, 0).value;
    var id := ParsePacket(data, loc.totalLen).value;
    var at := loc.totalLen + id.totalLen;
    var p := ParseCaveats(data, at, NO_CAVEAT).value.1;
    ParsedIsAPacket(data, p.start);
    var end := p.start + p.totalLen;
    assert end == |Marshal(m)|;
    assert data[..end] == other[..end];
    ParsePrefix(data, other, 0, end);
    ParsePrefix(data, other, loc.totalLen, end);
    ParsePrefix(data, other, p.start, end);
    ParseCaveatsPrefix(data, other, at, NO_CAVEAT, end);
    assert other[..p.start] == other[..end][..p.start] == data[..p.start];
  }

  // ------------------------------------------------------------------ slices

  function MarshalSlice(ms: seq<Fields>): bytes
    requires forall i :: 0 <= i < |ms| ==> |ms[i].sig| == V.HASH_LEN
  {
    if ms == [] then [] else Marshal(ms[0]) + MarshalSlice(ms[1..])
  }

  lemma SizeKnown(data: bytes)
    requires Unmarshal(data).Parsed?
    ensures |Unmarshal(data).value.data| + 47 <= |data|
  {
    hide Unmarshal;
    AcceptedIsCanonical(data);
  }

  /** Slice.UnmarshalBinary: the written length of what was read says where the next one starts. */
  function UnmarshalSlice(data: bytes): (r: Parsing<seq<Fields>>)
    ensures r.Parsed? ==> forall i :: 0 <= i < |r.value| ==> |r.value[i].sig| == V.HASH_LEN
    decreases |data|
  {
    if data == [] then Parsed([])
    else
      match Unmarshal(data)
      case Failed => Failed
      case Panicked => Panicked
      case Parsed(m) =>
        SizeKnown(data);
        match UnmarshalSlice(data[|m.data| + 47..])
        case Failed => Failed
        case Panicked => Panicked
        case Parsed(ms) => Parsed([m] + ms)
  }

  predicate AllFit(vs: seq<V.Macaroon>)
  {
    forall i :: 0 <= i < |vs| ==> Fits(vs[i])
  }

  function Layouts(vs: seq<V.Macaroon>): (ms: seq<Fields>)
    requires AllFit(vs)
    ensures |ms| == |vs| && forall i :: 0 <= i < |ms| ==> ms[i] == Layout(vs[i])
  {
    if vs == [] then [] else [Layout(vs[0])] + Layouts(vs[1..])
  }

  /** Concatenated macaroons split back into themselves exactly when each of them reads back. */
  lemma {:induction false} SliceRoundTrip(vs: seq<V.Macaroon>)
    requires AllFit(vs)
    ensures UnmarshalSlice(MarshalSlice(Layouts(vs))) == Parsed(Layouts(vs))
       <==> forall i :: 0 <= i < |vs| ==> Restorable(vs[i].caveats)
  {
    hide Unmarshal, Layout, Restorable, Run;
    if vs == [] {
    } else {
      var v, tail := vs[0], vs[1..];
      var m, rest := Layout(v), MarshalSlice(Layouts(tail));
      assert Layouts(vs)[1..] == Layouts(tail);
      var data := MarshalSlice(Layouts(vs));
      assert data == Marshal(m) + rest;
      SliceRoundTrip(tail);
      MacaroonRoundTrip(v, rest);
      MarshalledReads(v, rest);
      assert forall i :: 0 <= i < |tail| ==> tail[i] == vs[i + 1];
      if Unmarshal(data).Parsed? {
        var got := Unmarshal(data).value;
        assert |Marshal(got)| == |got.data| + 47 == |Marshal(m)|;
        assert data[|Marshal(got)|..] == rest;
        var all := UnmarshalSlice(data);
        if all == Parsed(Layouts(vs)) {
          assert all.value[0] == got && all.value[1..] == Layouts(tail);
          assert UnmarshalSlice(rest).value == all.value[1..];
          forall i | 0 <= i < |vs|
            ensures Restorable(vs[i].caveats)
          {
            if i > 0 {
              assert vs[i] == tail[i - 1];
            }
          }
        }
        if forall i :: 0 <= i < |vs| ==> Restorable(vs[i].caveats) {
          assert Restorable(vs[0].caveats);
          assert all == Parsed([m] + Layouts(tail));
        }
      }
    }
  }

  /** Whatever slice was accepted is the concatenation of its macaroons' written forms. */
  lemma {:induction false} AcceptedSliceIsCanonical(data: bytes)
    requires UnmarshalSlice(data).Parsed?
    ensures MarshalSlice(UnmarshalSlice(data).value) == data
    decreases |data|
  {
    hide Unmarshal, Marshal;
    if data != [] {
      var m := Unmarshal(data).value;
      AcceptedIsCanonical(data);
      var rest := data[|Marshal(m)|..];
      AcceptedSliceIsCanonical(rest);
      assert UnmarshalSlice(data).value[1..] == UnmarshalSlice(rest).value;
    }
  }

  /** In literal names: a location packet, an identifier packet, for every caveat its "cid", "vid" and "cl" packets,
      and a signature packet. */
  lemma MarshalledIs(v: V.Macaroon)
    requires Fits(v)
    ensures var m := Layout(v);
            && PacketSize(Ascii("location"), v.location) <= 0xffff && PacketSize(Ascii("identifier"), v.id) <= 0xffff
            && Marshal(m) == RawPacket(Ascii("location"), v.location) + RawPacket(Ascii("identifier"), v.id)
                             + ItemBytes(AllItems(v.caveats)) + RawPacket(Ascii("signature"), v.sig)
    ensures FieldOf(CaveatId) == Ascii("cid") && FieldOf(VerificationId) == Ascii("vid") && FieldOf(CaveatLocation) == Ascii("cl")
  {
    hide RawPacket, ItemBytes, AllItems;
    assert Ascii("location") == LOCATION && Ascii("identifier") == IDENTIFIER && Ascii("signature") == SIGNATURE;
  }
}
