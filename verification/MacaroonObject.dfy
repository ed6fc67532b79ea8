/**
 The macaroon object (macaroon.v1/macaroon.go): its data grows by packets, its caveats are references
 into it. Each operation is tied to the macaroon value it represents.
 */
module MacaroonObject {
  import opened Base
  import opened MacaroonPackets
  import opened MacaroonBinary
  import V = MacaroonVerify

  // ------------------------------------------------------------------ growing the layout

  lemma PartsFit(a: seq<Item>, b: seq<Item>)
    ensures ItemsFit(a + b) <==> ItemsFit(a) && ItemsFit(b)
  {
    hide ItemSize;
    assert forall i :: 0 <= i < |a| ==> a[i] == (a + b)[i];
    assert forall i :: 0 <= i < |b| ==> b[i] == (a + b)[|a| + i];
  }

  lemma {:induction false} ItemBytesAppend(a: seq<Item>, b: seq<Item>)
    requires ItemsFit(a) && ItemsFit(b)
    ensures ItemsFit(a + b) && ItemBytes(a + b) == ItemBytes(a) + ItemBytes(b)
  {
    hide RawPacket;
    PartsFit(a, b);
    if a == [] {
      assert a + b == b;
    } else {
      assert (a + b)[1..] == a[1..] + b;
      ItemBytesAppend(a[1..], b);
      Regroup(RawPacket(FieldOf(a[0].kind), a[0].payload), ItemBytes(a[1..]), ItemBytes(b));
    }
  }

  lemma Regroup(a: bytes, b: bytes, c: bytes)
    ensures a + b + c == a + (b + c)
  {
  }

  lemma {:induction false} AllItemsAppend(cavs: seq<V.Caveat>, c: V.Caveat)
    ensures AllItems(cavs + [c]) == AllItems(cavs) + Items(c)
  {
    if cavs == [] {
      assert (cavs + [c])[1..] == [];
    } else {
      assert (cavs + [c])[1..] == cavs[1..] + [c];
      AllItemsAppend(cavs[1..], c);
    }
  }

  function AllSizes(cavs: seq<V.Caveat>): nat
  {
    if cavs == [] then 0 else CaveatSize(cavs[0]) + AllSizes(cavs[1..])
  }

  lemma {:induction false} RefsAppend(at: nat, cavs: seq<V.Caveat>, c: V.Caveat)
    ensures Refs(at, cavs + [c]) == Refs(at, cavs) + [RefOf(at + AllSizes(cavs), c)]
    decreases |cavs|
  {
    if cavs == [] {
      assert (cavs + [c])[1..] == [];
    } else {
      assert (cavs + [c])[1..] == cavs[1..] + [c];
      RefsAppend(at + CaveatSize(cavs[0]), cavs[1..], c);
    }
  }

  lemma OneSize(kind: Kind, payload: bytes)
    requires ItemsFit(One(kind, payload))
    ensures |ItemBytes(One(kind, payload))| == Size(kind, payload)
  {
  }

  lemma ItemsSize(c: V.Caveat)
    requires ItemsFit(Items(c))
    ensures |ItemBytes(Items(c))| == CaveatSize(c)
  {
    var a, b, d := One(CaveatId, c.id), One(VerificationId, c.vid), One(CaveatLocation, c.location);
    PartsFit(a + b, d);
    PartsFit(a, b);
    ItemBytesAppend(a + b, d);
    ItemBytesAppend(a, b);
    OneSize(CaveatId, c.id);
    OneSize(VerificationId, c.vid);
    OneSize(CaveatLocation, c.location);
  }

  lemma {:induction false} AllItemsSize(cavs: seq<V.Caveat>)
    requires ItemsFit(AllItems(cavs))
    ensures |ItemBytes(AllItems(cavs))| == AllSizes(cavs)
  {
    if cavs != [] {
      PartsFit(Items(cavs[0]), AllItems(cavs[1..]));
      ItemBytesAppend(Items(cavs[0]), AllItems(cavs[1..]));
      ItemsSize(cavs[0]);
      AllItemsSize(cavs[1..]);
    }
  }

  /** Adding a caveat to a macaroon appends its packets and one caveat of references to its layout. */
  lemma LayoutGrows(v: V.Macaroon, c: V.Caveat, sig: bytes)
    requires Fits(v) && ItemsFit(Items(c)) && !c.emptyVid && |sig| == V.HASH_LEN
    ensures var w := v.(caveats := v.caveats + [c], sig := sig);
            && Fits(w)
            && Layout(w) == Layout(v).(data := Layout(v).data + ItemBytes(Items(c)),
                                       caveats := Layout(v).caveats + [RefOf(|Layout(v).data|, c)],
                                       sig := sig)
  {
    hide ItemBytes, AllItems, Refs, RawPacket, Items;
    AllItemsAppend(v.caveats, c);
    ItemBytesAppend(AllItems(v.caveats), Items(c));
    RefsAppend(HeaderSize(v), v.caveats, c);
    AllItemsSize(v.caveats);
    var head := RawPacket(LOCATION, v.location) + RawPacket(IDENTIFIER, v.id);
    assert head + (ItemBytes(AllItems(v.caveats)) + ItemBytes(Items(c)))
        == head + ItemBytes(AllItems(v.caveats)) + ItemBytes(Items(c));
  }

  /** The items of a list before the first that is too big. */
  function Fitting(items: seq<Item>): (r: seq<Item>)
    ensures ItemsFit(r) && r <= items
    ensures r == items <==> ItemsFit(items)
  {
    if items == [] then []
    else if ItemSize(items[0]) > MAX_PACKET_LEN then []
    else
      var rest := Fitting(items[1..]);
      assert ItemsFit(items) ==> ItemsFit(items[1..]);
      [items[0]] + rest
  }

  lemma FittingOne(kind: Kind, payload: bytes, rest: seq<Item>)
    ensures Fitting(One(kind, payload) + rest)
         == if ItemsFit(One(kind, payload)) then One(kind, payload) + Fitting(rest) else []
  {
    if payload == [] {
      assert One(kind, payload) + rest == rest;
    } else {
      assert (One(kind, payload) + rest)[1..] == rest;
    }
  }

  // ------------------------------------------------------------------ reading references

  lemma PartReads(pre: bytes, kind: Kind, payload: bytes, post: bytes)
    requires ItemsFit(One(kind, payload))
    ensures var data := pre + ItemBytes(One(kind, payload)) + post;
            Inside(data, Ref(|pre|, kind, payload)) && DataBytes(data, Ref(|pre|, kind, payload)) == payload
  {
    hide RawPacket;
    if payload != [] {
      assert One(kind, payload)[0] == Item(kind, payload);
      var raw := RawPacket(FieldOf(kind), payload);
      assert ItemBytes(One(kind, payload)[1..]) == [];
      assert ItemBytes(One(kind, payload)) == raw + [] == raw;
      Stands(pre, raw, post);
      FieldsDiffer(kind);
      PacketParses(pre + raw + post, |pre|, FieldOf(kind), payload);
    }
  }

  /** A caveat's references read its parts and tell which kind it is. */
  ghost predicate Reads(data: bytes, ref: CaveatRef, c: V.Caveat)
  {
    && (ref.verificationId.totalLen > 0 <==> c.IsThirdParty())
    && Inside(data, ref.caveatId) && DataBytes(data, ref.caveatId) == c.id
    && Inside(data, ref.verificationId) && DataBytes(data, ref.verificationId) == c.vid
    && Inside(data, ref.location) && DataBytes(data, ref.location) == c.location
  }

  lemma CaveatReads(pre: bytes, c: V.Caveat, post: bytes)
    requires ItemsFit(Items(c)) && !c.emptyVid
    ensures Reads(pre + ItemBytes(Items(c)) + post, RefOf(|pre|, c), c)
  {
    hide ItemBytes, ItemsFit, Inside, DataBytes, One;
    var a, b, d := One(CaveatId, c.id), One(VerificationId, c.vid), One(CaveatLocation, c.location);
    PartsFit(a + b, d);
    PartsFit(a, b);
    ItemBytesAppend(a + b, d);
    ItemBytesAppend(a, b);
    var x, y, z := ItemBytes(a), ItemBytes(b), ItemBytes(d);
    var data := pre + ItemBytes(Items(c)) + post;
    assert data == pre + x + (y + z + post);
    assert data == (pre + x) + y + (z + post);
    assert data == (pre + x + y) + z + post;
    PartReads(pre, CaveatId, c.id, y + z + post);
    PartReads(pre + x, VerificationId, c.vid, z + post);
    PartReads(pre + x + y, CaveatLocation, c.location, post);
    OneSize(CaveatId, c.id);
    OneSize(VerificationId, c.vid);
  }

  lemma {:induction false} CaveatsRead(pre: bytes, cavs: seq<V.Caveat>, post: bytes, i: nat)
    requires i < |cavs| && ItemsFit(AllItems(cavs)) && !cavs[i].emptyVid
    ensures Reads(pre + ItemBytes(AllItems(cavs)) + post, Refs(|pre|, cavs)[i], cavs[i])
    decreases i
  {
    hide ItemBytes, ItemsFit, Items, Reads;
    var c, rest := cavs[0], cavs[1..];
    PartsFit(Items(c), AllItems(rest));
    ItemBytesAppend(Items(c), AllItems(rest));
    ItemsSize(c);
    var x, y := ItemBytes(Items(c)), ItemBytes(AllItems(rest));
    var data := pre + ItemBytes(AllItems(cavs)) + post;
    assert data == pre + x + (y + post);
    assert data == (pre + x) + y + post;
    if i == 0 {
      CaveatReads(pre, c, y + post);
    } else {
      CaveatsRead(pre + x, rest, post, i - 1);
    }
  }

  lemma HeaderReads(location: bytes, id: bytes, items: bytes)
    requires PacketSize(LOCATION, location) <= MAX_PACKET_LEN && PacketSize(IDENTIFIER, id) <= MAX_PACKET_LEN
    ensures var data := RawPacket(LOCATION, location) + RawPacket(IDENTIFIER, id) + items;
            var l, i := PacketRef(0, LOCATION, location), PacketRef(PacketSize(LOCATION, location), IDENTIFIER, id);
            && Inside(data, l) && DataBytes(data, l) == location
            && Inside(data, i) && DataBytes(data, i) == id
  {
    hide RawPacket, FieldLike, Inside, DataBytes, ParsePacket;
    var first, second := RawPacket(LOCATION, location), RawPacket(IDENTIFIER, id);
    var data := first + second + items;
    FieldsDiffer(CaveatId);
    Stands([], first, second + items);
    assert data == [] + first + (second + items);
    PacketParses(data, 0, LOCATION, location);
    Stands(first, second, items);
    PacketParses(data, |first|, IDENTIFIER, id);
  }

  /** The references of a layout read back the macaroon they were built for. */
  lemma LayoutReads(v: V.Macaroon)
    requires Fits(v)
    ensures var m := Layout(v);
            && Inside(m.data, m.location) && DataBytes(m.data, m.location) == v.location
            && Inside(m.data, m.id) && DataBytes(m.data, m.id) == v.id
            && |m.caveats| == |v.caveats|
            && forall i :: 0 <= i < |v.caveats| ==> Reads(m.data, m.caveats[i], v.caveats[i])
  {
    hide RawPacket, ItemBytes, AllItems, Refs, Reads, Inside, DataBytes;
    var m := Layout(v);
    var loc, id := RawPacket(LOCATION, v.location), RawPacket(IDENTIFIER, v.id);
    HeaderReads(v.location, v.id, ItemBytes(AllItems(v.caveats)));
    assert m.data + [] == m.data;
    forall i | 0 <= i < |v.caveats|
      ensures Reads(m.data, m.caveats[i], v.caveats[i])
    {
      CaveatsRead(loc + id, v.caveats, [], i);
    }
  }

  // ------------------------------------------------------------------ the object

  datatype Outcome = Done | Error | Panic

  /** The hash is 32 bytes long. */
  ghost predicate HashesAreKeys(c: V.Crypto)
  {
    forall k, d :: |c.hash(k, d)| == V.HASH_LEN
  }

  class Macaroon {
    var data: bytes
    var location: Packet
    var id: Packet
    var caveats: seq<CaveatRef>
    var sig: bytes

    constructor Zero()
      ensures AsFields() == Fields([], NO_PACKET, NO_PACKET, [], V.ZeroKey())
    {
      data, location, id, caveats, sig := [], NO_PACKET, NO_PACKET, [], V.ZeroKey();
    }

    function AsFields(): Fields
      reads this
    {
      Fields(data, location, id, caveats, sig)
    }

    /** The object is what the constructor and the caveat methods build for this macaroon. */
    ghost predicate Represents(v: V.Macaroon)
      reads this
    {
      Fits(v) && AsFields() == Layout(v)
    }

    method AppendPacket(field: bytes, payload: bytes) returns (p: Packet, ok: bool)
      modifies `data
      ensures match RawAppendPacket(old(data), field, payload)
              case None => !ok && p == NO_PACKET && data == old(data)
              case Some((after, at)) => ok && p == at && data == after
    {
      var r := RawAppendPacket(data, field, payload);
      if r.None? {
        return NO_PACKET, false;
      }
      data := r.value.0;
      return r.value.1, true;
    }

    /** New: a macaroon without caveats, or an error when the location or the identifier is too big. */
    static method New(c: V.Crypto, rootKey: bytes, id: bytes, location: bytes) returns (ok: bool, m: Macaroon)
      requires HashesAreKeys(c)
      ensures fresh(m)
      ensures ok <==> Fits(V.New(c, rootKey, id, location))
      ensures ok ==> m.Represents(V.New(c, rootKey, id, location))
    {
      hide RawPacket, Inside, DataBytes;
      ok := false;
      m := new Macaroon.Zero();
      m.location, ok := m.AppendPacket(LOCATION, location);
      if !ok {
        return;
      }
      ghost var first := m.data;
      m.id, ok := m.AppendPacket(IDENTIFIER, id);
      if !ok {
        return;
      }
      assert first == [] + RawPacket(LOCATION, location) == RawPacket(LOCATION, location);
      HeaderReads(location, id, []);
      assert m.data + [] == m.data;
      m.sig := c.hash(c.makeKey(rootKey), DataBytes(m.data, m.id));
    }

    /** appendCaveat. On an error the packets before the one that was too big stay in the data. */
    method AppendCaveat(caveatId: bytes, verificationId: bytes, loc: bytes) returns (ok: bool)
      modifies `data, `caveats
      ensures ok <==> ItemsFit(Items(V.Caveat(caveatId, verificationId, loc)))
      ensures data == old(data) + ItemBytes(Fitting(Items(V.Caveat(caveatId, verificationId, loc))))
      ensures caveats == if ok then old(caveats) + [RefOf(|old(data)|, V.Caveat(caveatId, verificationId, loc))]
                         else old(caveats)
    {
      hide RawPacket, ItemsFit, ItemBytes, Fitting;
      ghost var a, b, d := One(CaveatId, caveatId), One(VerificationId, verificationId), One(CaveatLocation, loc);
      ghost var start := data;
      FittingParts(a, b, d, caveatId, verificationId, loc);
      Nothing(start);
      var cav := NO_CAVEAT;
      if caveatId != [] {
        var p, fits := AppendPacket(CAVEAT_ID, caveatId);
        if !fits {
          return false;
        }
        cav := cav.(caveatId := p);
      }
      Grown(start, [], CaveatId, caveatId, start, data);
      assert [] + a == a;
      ghost var withId := data;
      if verificationId != [] {
        var p, fits := AppendPacket(VERIFICATION_ID, verificationId);
        if !fits {
          return false;
        }
        cav := cav.(verificationId := p);
      }
      Grown(start, a, VerificationId, verificationId, withId, data);
      ghost var withVid := data;
      if loc != [] {
        var p, fits := AppendPacket(CAVEAT_LOCATION, loc);
        if !fits {
          return false;
        }
        cav := cav.(location := p);
      }
      Grown(start, a + b, CaveatLocation, loc, withVid, data);
      assert cav == RefOf(|start|, V.Caveat(caveatId, verificationId, loc));
      caveats := caveats + [cav];
      return true;
    }

    /** addCaveat. The signature is chained over what the new references read. */
    method AddCaveat(c: V.Crypto, caveatId: bytes, verificationId: bytes, loc: bytes, ghost v: V.Macaroon)
      returns (ok: bool)
      requires HashesAreKeys(c) && Represents(v)
      modifies `data, `caveats, `sig
      ensures ok <==> ItemsFit(Items(V.Caveat(caveatId, verificationId, loc)))
      ensures ok ==> Represents(V.AddCaveat(c, v, V.Caveat(caveatId, verificationId, loc)))
      ensures !ok ==> AsFields() == Layout(v).(data := Layout(v).data
                                  + ItemBytes(Fitting(Items(V.Caveat(caveatId, verificationId, loc)))))
    {
      hide ItemBytes, AllItems, Refs, RawPacket, Items, Fitting, RefOf, Inside, DataBytes;
      ghost var caveat := V.Caveat(caveatId, verificationId, loc);
      ok := AppendCaveat(caveatId, verificationId, loc);
      if !ok {
        return;
      }
      CaveatReads(Layout(v).data, caveat, []);
      assert data + [] == data;
      var cav := caveats[|caveats| - 1];
      sig := V.KeyedHash2(c, sig, DataBytes(data, cav.verificationId), DataBytes(data, cav.caveatId));
      LayoutGrows(v, caveat, sig);
    }

    /** Bind. */
    method Bind(c: V.Crypto, rootSig: bytes, ghost v: V.Macaroon)
      requires HashesAreKeys(c) && Represents(v)
      modifies `sig
      ensures Represents(V.Bind(c, v, rootSig))
    {
      sig := V.BindForRequest(c, rootSig, sig);
    }

    method MarshalBinary() returns (r: bytes)
      requires |sig| == V.HASH_LEN
      ensures r == Marshal(AsFields())
    {
      r := [];
      r := r + data;
      r := RawAppendPacket(r, SIGNATURE, sig).value.0;
    }

    /** unmarshalBinaryNoCopy. The caveats are added to those the object already has. */
    method UnmarshalBinaryNoCopy(input: bytes) returns (outcome: Outcome)
      modifies this
      ensures match Unmarshal(input)
              case Failed => outcome == Error
              case Panicked => outcome == Panic
              case Parsed(m) => outcome == Done && AsFields() == m.(caveats := old(caveats) + m.caveats)
    {
      hide ParsePacket, FieldName, DataBytes, Take, Completed, Pending, KindOf, ParseCaveats, After;
      data := input;
      var p := ExpectPacket(data, 0, LOCATION);
      if !p.Parsed? {
        return if p.Failed? then Error else Panic;
      }
      location := p.value;
      p := ExpectPacket(data, location.totalLen, IDENTIFIER);
      if !p.Parsed? {
        return if p.Failed? then Error else Panic;
      }
      id := p.value;
      var start := location.totalLen + id.totalLen;
      var cav := NO_CAVEAT;
      ghost var first, had := start, caveats;
      ghost var done: seq<CaveatRef> := [];
      AfterNothing(ParseCaveats(input, start, cav));
      while true
        invariant start <= |input| && data == input
        invariant ExpectPacket(input, 0, LOCATION) == Parsed(location)
        invariant ExpectPacket(input, location.totalLen, IDENTIFIER) == Parsed(id)
        invariant first == location.totalLen + id.totalLen <= |input|
        invariant caveats == had + done
        invariant After(done, ParseCaveats(input, start, cav)) == ParseCaveats(input, first, NO_CAVEAT)
        decreases |input| - start
      {
        ParseStep(input, start, cav);
        AfterKeeps(done, ParseCaveats(input, start, cav));
        p := ParsePacket(data, start);
        if !p.Parsed? {
          return if p.Failed? then Error else Panic;
        }
        var field := FieldName(data, p.value);
        if field == SIGNATURE {
          caveats := caveats + Pending(cav);
          data := data[..p.value.start];
          var signature := DataBytes(input, p.value);
          if |signature| != V.HASH_LEN {
            return Error;
          }
          sig := signature;
          return Done;
        }
        var kind := KindOf(field);
        if kind.None? {
          return Error;
        }
        var next := Take(cav, kind.value, p.value);
        if next.None? {
          return Error;
        }
        caveats := caveats + Completed(cav, kind.value);
        AfterAfter(done, Completed(cav, kind.value), ParseCaveats(input, start + p.value.totalLen, next.value));
        done := done + Completed(cav, kind.value);
        cav := next.value;
        start := start + p.value.totalLen;
      }
    }
  }

  lemma ParseStep(data: bytes, start: nat, cav: CaveatRef)
    requires start <= |data|
    ensures match ParsePacket(data, start)
            case Failed => ParseCaveats(data, start, cav) == Failed
            case Panicked => ParseCaveats(data, start, cav) == Panicked
            case Parsed(p) =>
              var field := FieldName(data, p);
              && start < start + p.totalLen <= |data|
              && (field == SIGNATURE ==> ParseCaveats(data, start, cav) == Parsed((Pending(cav), p)))
              && (field != SIGNATURE && (KindOf(field).None? || Take(cav, KindOf(field).value, p).None?)
                  ==> ParseCaveats(data, start, cav) == Failed)
              && (field != SIGNATURE && KindOf(field).Some? && Take(cav, KindOf(field).value, p).Some?
                  ==> ParseCaveats(data, start, cav)
                      == After(Completed(cav, KindOf(field).value),
                               ParseCaveats(data, start + p.totalLen, Take(cav, KindOf(field).value, p).value)))
  {
    hide ParsePacket, FieldName, Take, KindOf, Completed, Pending, After;
  }

  lemma AfterKeeps(before: seq<CaveatRef>, r: Parsing<(seq<CaveatRef>, Packet)>)
    ensures r.Failed? ==> After(before, r).Failed?
    ensures r.Panicked? ==> After(before, r).Panicked?
    ensures r.Parsed? ==> After(before, r) == Parsed((before + r.value.0, r.value.1))
  {
  }

  lemma AfterNothing(r: Parsing<(seq<CaveatRef>, Packet)>)
    ensures After([], r) == r
  {
    if r.Parsed? {
      assert [] + r.value.0 == r.value.0;
    }
  }

  lemma AfterAfter(a: seq<CaveatRef>, b: seq<CaveatRef>, r: Parsing<(seq<CaveatRef>, Packet)>)
    ensures After(a, After(b, r)) == After(a + b, r)
  {
    if r.Parsed? {
      assert a + (b + r.value.0) == a + b + r.value.0;
    }
  }

  lemma Nothing(start: bytes)
    ensures ItemsFit([]) && start == start + ItemBytes([])
  {
  }

  predicate TooBig(kind: Kind, payload: bytes)
  {
    payload != [] && PacketSize(FieldOf(kind), payload) > MAX_PACKET_LEN
  }

  /** Which packets of a caveat are written, part by part. */
  lemma FittingParts(a: seq<Item>, b: seq<Item>, d: seq<Item>, id: bytes, vid: bytes, loc: bytes)
    requires a == One(CaveatId, id) && b == One(VerificationId, vid) && d == One(CaveatLocation, loc)
    ensures var c := V.Caveat(id, vid, loc);
            && Items(c) == a + b + d
            && (ItemsFit(Items(c)) <==> !TooBig(CaveatId, id) && !TooBig(VerificationId, vid) && !TooBig(CaveatLocation, loc))
            && Fitting(Items(c)) == if TooBig(CaveatId, id) then []
                                    else if TooBig(VerificationId, vid) then a
                                    else if TooBig(CaveatLocation, loc) then a + b
                                    else a + b + d
  {
    hide Fitting, ItemsFit, TooBig, One;
    var c := V.Caveat(id, vid, loc);
    assert Items(c) == a + (b + (d + [])) == a + b + d;
    FittingOne(CaveatId, id, b + (d + []));
    FittingOne(VerificationId, vid, d + []);
    FittingOne(CaveatLocation, loc, []);
    OneFits(CaveatId, id);
    OneFits(VerificationId, vid);
    OneFits(CaveatLocation, loc);
    FittingNothing();
    assert a + [] == a && a + (b + []) == a + b && d + [] == d;
    PartsFit(a + b, d);
    PartsFit(a, b);
  }

  lemma FittingNothing()
    ensures Fitting([]) == []
  {
  }

  lemma OneFits(kind: Kind, payload: bytes)
    ensures ItemsFit(One(kind, payload)) <==> !TooBig(kind, payload)
  {
    if payload != [] {
      assert One(kind, payload)[0] == Item(kind, payload);
    }
  }

  /** One part appended, or not, to what has been written so far. */
  lemma Grown(start: bytes, done: seq<Item>, kind: Kind, payload: bytes, before: bytes, after: bytes)
    requires ItemsFit(done) && before == start + ItemBytes(done)
    requires !TooBig(kind, payload)
    requires after == if payload == [] then before else before + RawPacket(FieldOf(kind), payload)
    ensures ItemsFit(done + One(kind, payload)) && after == start + ItemBytes(done + One(kind, payload))
    ensures |after| == |before| + Size(kind, payload)
  {
    hide RawPacket;
    var part := One(kind, payload);
    ItemBytesAppend(done, part);
    if payload == [] {
      assert done + part == done;
    } else {
      assert ItemBytes(part) == RawPacket(FieldOf(kind), payload) + ItemBytes(part[1..]);
      assert ItemBytes(part[1..]) == [];
      assert ItemBytes(part) == RawPacket(FieldOf(kind), payload);
      Regroup(start, ItemBytes(done), ItemBytes(part));
    }
  }

  // ------------------------------------------------------------------ a caveat that does not fit

  lemma {:induction false} CountPrefix(a: seq<Item>, b: seq<Item>)
    ensures CountIds(a + b) == CountIds(a) + CountIds(b)
  {
    if a == [] {
      assert a + b == b;
    } else {
      assert (a + b)[1..] == a[1..] + b;
      CountPrefix(a[1..], b);
    }
  }

  /** Every caveat that is read has an identifier. */
  lemma {:induction false} RunHasIds(items: seq<Item>, at: nat, cav: CaveatRef)
    ensures Run(items, at, cav).Some? ==>
              forall k :: 0 <= k < |Run(items, at, cav).value| ==> Run(items, at, cav).value[k].caveatId.totalLen != 0
    decreases |items|
  {
    if items != [] {
      var item := items[0];
      var next := Take(cav, item.kind, PacketRef(at, FieldOf(item.kind), item.payload));
      if next.Some? {
        RunHasIds(items[1..], at + ItemSize(item), next.value);
      }
    }
  }

  lemma {:induction false} RefsWithoutId(at: nat, cavs: seq<V.Caveat>, i: nat)
    requires i < |cavs| && cavs[i].id == []
    ensures Refs(at, cavs)[i].caveatId == NO_PACKET
    decreases |cavs|
  {
    if i > 0 {
      RefsWithoutId(at + CaveatSize(cavs[0]), cavs[1..], i - 1);
    }
  }

  /** A caveat without an identifier is not read back, whatever follows it. */
  lemma NoIdIsLost(cavs: seq<V.Caveat>, tail: seq<Item>, at: nat)
    requires !HaveIds(cavs)
    ensures Run(AllItems(cavs) + tail, at, NO_CAVEAT) != Some(Refs(at, cavs))
  {
    var i: nat :| i < |cavs| && cavs[i].id == [];
    RunHasIds(AllItems(cavs) + tail, at, NO_CAVEAT);
    RefsWithoutId(at, cavs, i);
  }

  lemma CarriedOverStill(c: V.Caveat, rest: seq<V.Caveat>, tail: seq<Item>, at: nat)
    requires rest != [] && (c.vid != [] || c.location != [])
    ensures Run(AllItems(rest) + tail, at + CaveatSize(c), RefOf(at, c)) != Some([RefOf(at, c)] + Refs(at + CaveatSize(c), rest))
  {
    hide Run, AllItems;
    var cav, after := RefOf(at, c), at + CaveatSize(c);
    RunIsSticky(AllItems(rest) + tail, after, cav);
    var wanted := [cav] + Refs(after, rest);
    assert wanted[1] == RefOf(after, rest[0]);
  }

  /** A verification id left over after caveats with identifiers is taken into the last of them. */
  lemma {:induction false} VidIsTaken(cavs: seq<V.Caveat>, vid: bytes, at: nat, cav: CaveatRef)
    requires HaveIds(cavs) && vid != [] && cav.verificationId == NO_PACKET && cav.location == NO_PACKET
    ensures Run(AllItems(cavs) + One(VerificationId, vid), at, cav) == Some(Pending(cav) + Refs(at, cavs))
       <==> cavs == [] && Pending(cav) == []
    decreases |cavs|
  {
    var tail := One(VerificationId, vid);
    if cavs == [] {
      assert AllItems(cavs) + tail == tail && Pending(cav) + Refs(at, cavs) == Pending(cav);
      LastTakes(vid, at, cav);
    } else {
      hide Run, Items;
      var c, rest, next, after := cavs[0], cavs[1..], RefOf(at, cavs[0]), at + CaveatSize(cavs[0]);
      assert AllItems(cavs) + tail == Items(c) + (AllItems(rest) + tail);
      RunCaveat(c, AllItems(rest) + tail, at, cav);
      var refs := [next] + Refs(after, rest);
      assert Refs(at, cavs) == refs;
      SamePrefix(Pending(cav), Run(AllItems(rest) + tail, after, next), refs);
      assert Pending(next) == [next];
      if c.vid == [] && c.location == [] {
        assert forall i :: 0 <= i < |rest| ==> rest[i] == cavs[i + 1];
        VidIsTaken(rest, vid, after, next);
      } else if rest == [] {
        assert AllItems(rest) + tail == tail && refs == [next];
        LastTakes(vid, after, next);
      } else {
        CarriedOverStill(c, rest, tail, at);
      }
    }
  }

  lemma LastTakes(vid: bytes, at: nat, cav: CaveatRef)
    requires vid != []
    ensures Run(One(VerificationId, vid), at, cav) == Some(Pending(cav)) <==> Pending(cav) == [] && cav.verificationId.totalLen == 0
  {
    var items := One(VerificationId, vid);
    var p := PacketRef(at, FieldOf(VerificationId), vid);
    assert items[1..] == [];
    assert Run(items[1..], at + ItemSize(items[0]), cav.(verificationId := p)) == Some(Pending(cav.(verificationId := p)));
    assert p.totalLen != 0;
    if Pending(cav) != [] {
      assert Pending(cav)[0] == cav;
    }
  }

  /** What AddCaveat leaves in the data of a caveat that it refuses: nothing, the identifier, or the identifier
      and the verification id. */
  lemma LeftOver(c: V.Caveat, left: seq<Item>)
    requires !ItemsFit(Items(c)) && left == Fitting(Items(c))
    ensures left == [] || left == One(CaveatId, c.id) || left == One(CaveatId, c.id) + One(VerificationId, c.vid)
    ensures left == [] <==> TooBig(CaveatId, c.id) || (c.id == [] && (c.vid == [] || TooBig(VerificationId, c.vid)))
  {
    hide Fitting, TooBig, ItemsFit;
    FittingParts(One(CaveatId, c.id), One(VerificationId, c.vid), One(CaveatLocation, c.location), c.id, c.vid, c.location);
  }

  /** The items of a macaroon and what was left of a refused caveat, as the caveat loop reads them. */
  lemma LeftOverReads(cavs: seq<V.Caveat>, c: V.Caveat, left: seq<Item>, at: nat)
    requires !ItemsFit(Items(c)) && left == Fitting(Items(c))
    ensures Run(AllItems(cavs) + left, at, NO_CAVEAT) == Some(Refs(at, cavs))
       <==> Restorable(cavs) && (left == [] || (c.id == [] && cavs == []))
  {
    hide Run, Fitting, TooBig, Items, ItemsFit, AllItems, PlainButLast, One;
    LeftOver(c, left);
    if !HaveIds(cavs) {
      NoIdIsLost(cavs, left, at);
    } else if left == [] {
      assert AllItems(cavs) + left == AllItems(cavs);
      CaveatsRestored(cavs, at);
    } else if c.id != [] {
      LeftStartsWithId(c, left);
      RunCounts(AllItems(cavs) + left, at, NO_CAVEAT);
      CountPrefix(AllItems(cavs), left);
      CountAllIds(cavs);
    } else {
      NoneOfNothing(c);
      assert [] + One(VerificationId, c.vid) == One(VerificationId, c.vid);
      VidIsTaken(cavs, c.vid, at, NO_CAVEAT);
      assert Pending(NO_CAVEAT) + Refs(at, cavs) == Refs(at, cavs);
      NoneIsPlain();
    }
  }

  lemma NoneIsPlain()
    ensures PlainButLast([])
  {
  }

  lemma NoneOfNothing(c: V.Caveat)
    requires c.id == []
    ensures One(CaveatId, c.id) == [] && (c.vid == [] ==> One(VerificationId, c.vid) == [])
  {
  }

  /** Of a refused caveat nothing is written, or, into a macaroon without caveats, only a verification id. */
  predicate Harmless(v: V.Macaroon, c: V.Caveat)
  {
    TooBig(CaveatId, c.id) || (c.id == [] && (c.vid == [] || TooBig(VerificationId, c.vid) || v.caveats == []))
  }

  /** AddCaveat reports an error for a caveat that does not fit, and leaves in the data what it had written of
      it. The data then reads back as the macaroon exactly when it did before and either nothing was written
      or the macaroon had no caveats and the refused one no identifier, so that a lone verification id is left. */
  lemma RefusedCaveat(v: V.Macaroon, c: V.Caveat, rest: bytes)
    requires Fits(v) && !ItemsFit(Items(c))
    ensures var m := Layout(v).(data := Layout(v).data + ItemBytes(Fitting(Items(c))));
            Unmarshal(Marshal(m) + rest) == Parsed(m) <==> Restorable(v.caveats) && Harmless(v, c)
  {
    hide Run, Fitting, TooBig, ItemBytes, Items, Unmarshal, Marshal, RawPacket, One, Restorable;
    var left, all := Fitting(Items(c)), AllItems(v.caveats) + Fitting(Items(c));
    LeftOver(c, left);
    ItemBytesAppend(AllItems(v.caveats), left);
    ItemsRead(v, all, rest);
    Regroup(RawPacket(LOCATION, v.location) + RawPacket(IDENTIFIER, v.id), ItemBytes(AllItems(v.caveats)), ItemBytes(left));
    LeftOverReads(v.caveats, c, left, HeaderSize(v));
  }

  /** An input: a first caveat with the identifier "x" and a location of 70000 bytes. */
  lemma RefusedCaveatSpoilsTheData(v: V.Macaroon, rest: bytes)
    requires Fits(v)
    ensures var c := V.Caveat([120], [], seq(70000, i => 97));
            && !ItemsFit(Items(c))
            && var m := Layout(v).(data := Layout(v).data + ItemBytes(Fitting(Items(c))));
               Unmarshal(Marshal(m) + rest) != Parsed(m)
  {
    hide Fitting, ItemBytes, Unmarshal, Marshal, RawPacket, Restorable, Items, One, ItemsFit, Layout;
    var c := V.Caveat([120], [], seq(70000, i => 97));
    FittingParts(One(CaveatId, c.id), One(VerificationId, c.vid), One(CaveatLocation, c.location), c.id, c.vid, c.location);
    RefusedCaveat(v, c, rest);
  }

  lemma LeftStartsWithId(c: V.Caveat, left: seq<Item>)
    requires c.id != []
    requires left == One(CaveatId, c.id) || left == One(CaveatId, c.id) + One(VerificationId, c.vid)
    ensures CountIds(left) > 0
  {
    assert left[0] == Item(CaveatId, c.id);
  }

  // ------------------------------------------------------------------ slices of macaroons

  ghost predicate Hold(ms: seq<Macaroon>, fields: seq<Fields>)
    reads ms
  {
    |ms| == |fields| && forall i :: 0 <= i < |ms| ==> ms[i].AsFields() == fields[i]
  }

  lemma {:induction false} MarshalSliceAppend(ms: seq<Fields>, m: Fields)
    requires (forall i :: 0 <= i < |ms| ==> |ms[i].sig| == V.HASH_LEN) && |m.sig| == V.HASH_LEN
    ensures MarshalSlice(ms + [m]) == MarshalSlice(ms) + Marshal(m)
  {
    hide Marshal;
    if ms == [] {
      assert (ms + [m])[1..] == [];
    } else {
      assert (ms + [m])[1..] == ms[1..] + [m];
      MarshalSliceAppend(ms[1..], m);
      assert Marshal(ms[0]) + (MarshalSlice(ms[1..]) + Marshal(m)) == Marshal(ms[0]) + MarshalSlice(ms[1..]) + Marshal(m);
    }
  }

  /** Slice.MarshalBinary. */
  method MarshalBinarySlice(ms: seq<Macaroon>, ghost fields: seq<Fields>) returns (r: bytes)
    requires Hold(ms, fields)
    requires forall i :: 0 <= i < |fields| ==> |fields[i].sig| == V.HASH_LEN
    ensures r == MarshalSlice(fields)
  {
    r := [];
    for i := 0 to |ms|
      invariant r == MarshalSlice(fields[..i])
    {
      MarshalSliceAppend(fields[..i], fields[i]);
      assert fields[..i] + [fields[i]] == fields[..i + 1];
      var one := ms[i].MarshalBinary();
      r := r + one;
    }
    assert fields[..|ms|] == fields;
  }

  lemma SliceEnd()
    ensures UnmarshalSlice([]) == Parsed([])
  {
  }

  lemma SliceStep(data: bytes)
    requires data != []
    ensures match Unmarshal(data)
            case Failed => UnmarshalSlice(data) == Failed
            case Panicked => UnmarshalSlice(data) == Panicked
            case Parsed(m) =>
              && |m.data| + 47 <= |data|
              && match UnmarshalSlice(data[|m.data| + 47..])
                 case Failed => UnmarshalSlice(data) == Failed
                 case Panicked => UnmarshalSlice(data) == Panicked
                 case Parsed(ms) => UnmarshalSlice(data) == Parsed([m] + ms)
  {
    hide Unmarshal;
    if Unmarshal(data).Parsed? {
      SizeKnown(data);
    }
  }

  /** Slice.UnmarshalBinary. */
  method UnmarshalBinarySlice(input: bytes) returns (outcome: Outcome, ms: seq<Macaroon>)
    ensures match UnmarshalSlice(input)
            case Failed => outcome == Error
            case Panicked => outcome == Panic
            case Parsed(fields) => outcome == Done && Hold(ms, fields)
  {
    hide Unmarshal, UnmarshalSlice;
    ms := [];
    var rest := input;
    ghost var done: seq<Fields> := [];
    assert UnmarshalSlice(input).Parsed? ==> done + UnmarshalSlice(input).value == UnmarshalSlice(input).value;
    while |rest| > 0
      invariant Hold(ms, done)
      invariant forall i :: 0 <= i < |ms| ==> fresh(ms[i])
      invariant match UnmarshalSlice(rest)
                case Failed => UnmarshalSlice(input) == Failed
                case Panicked => UnmarshalSlice(input) == Panicked
                case Parsed(more) => UnmarshalSlice(input) == Parsed(done + more)
      decreases |rest|
    {
      SliceStep(rest);
      var m := new Macaroon.Zero();
      var read := m.UnmarshalBinaryNoCopy(rest);
      if read != Done {
        return read, ms;
      }
      assert [] + Unmarshal(rest).value.caveats == Unmarshal(rest).value.caveats;
      ms := ms + [m];
      ghost var had := done;
      done := done + [m.AsFields()];
      rest := rest[|m.data| + 47..];
      assert UnmarshalSlice(rest).Parsed? ==>
          had + ([m.AsFields()] + UnmarshalSlice(rest).value) == done + UnmarshalSlice(rest).value;
    }
    SliceEnd();
    assert done + [] == done;
    outcome := Done;
  }
}
