/**
 Minting and verifying macaroons (macaroon.v1/macaroon.go).

 The cryptography is a parameter: a keyed hash, a key derivation and a secret box of which only
 the inverse law and the lengths are known. Verification is characterised for all inputs by the
 existence of a tree of discharges, and for minted macaroons by the first-party conditions.
 */
module MacaroonVerify {
  import opened Base

  const HASH_LEN: nat := 32
  const NONCE_LEN: nat := 24
  const BOX_OVERHEAD: nat := 16

  /** HMAC-SHA256, makeKey and the secret box of nacl. */
  datatype Crypto = Crypto(
    hash: (bytes, bytes) -> bytes,
    makeKey: bytes -> bytes,
    seal: (bytes, bytes, bytes) -> bytes,             // key, nonce, text
    open: (bytes, bytes, bytes) -> Option<bytes>)     // key, nonce, box

  ghost predicate Sound(c: Crypto)
  {
    && (forall k, n, t :: c.open(k, n, c.seal(k, n, t)) == Some(t) && |c.seal(k, n, t)| == |t| + BOX_OVERHEAD)
    && (forall k :: |c.makeKey(k)| == HASH_LEN)
  }

  /** A caveat. Written ones have no packet for an empty part; one that was read may have a packet
      for a verification id of no bytes. */
  datatype Caveat = Caveat(id: bytes, vid: bytes, location: bytes, emptyVid: bool := false) {
    /** isThirdParty: there is a packet for the verification id. */
    predicate IsThirdParty()
    {
      |vid| > 0 || emptyVid
    }
  }

  datatype Macaroon = Macaroon(location: bytes, id: bytes, caveats: seq<Caveat>, sig: bytes)

  // ------------------------------------------------------------------ cryptographic helpers

  /** crypto.go encrypt: the nonce, then the box. */
  function Encrypt(c: Crypto, key: bytes, text: bytes, nonce: bytes): bytes
  {
    nonce + c.seal(key, nonce, text)
  }

  /** crypto.go decrypt: too short, not opened and wrong length are errors. */
  function Decrypt(c: Crypto, key: bytes, ciphertext: bytes): Option<bytes>
  {
    if |ciphertext| < NONCE_LEN + BOX_OVERHEAD then None
    else match c.open(key, ciphertext[..NONCE_LEN], ciphertext[NONCE_LEN..])
      case None => None
      case Some(text) => if |text| != HASH_LEN then None else Some(text)
  }

  function KeyedHash2(c: Crypto, key: bytes, d1: bytes, d2: bytes): bytes
  {
    if |d1| == 0 then c.hash(key, d2) else c.hash(key, c.hash(key, d1) + c.hash(key, d2))
  }

  function ZeroKey(): bytes
  {
    seq(HASH_LEN, i => 0)
  }

  /** bindForRequest: a signature equal to the root's is left as it is. */
  function BindForRequest(c: Crypto, rootSig: bytes, dischargeSig: bytes): bytes
  {
    if rootSig == dischargeSig then dischargeSig else KeyedHash2(c, ZeroKey(), rootSig, dischargeSig)
  }

  /** The signature after a caveat, and after all of them. */
  function Chain(c: Crypto, cavs: seq<Caveat>, sig: bytes): bytes
    decreases |cavs|
  {
    if cavs == [] then sig else Chain(c, cavs[1..], KeyedHash2(c, sig, cavs[0].vid, cavs[0].id))
  }

  // ------------------------------------------------------------------ minting

  function New(c: Crypto, rootKey: bytes, id: bytes, location: bytes): Macaroon
  {
    Macaroon(location, id, [], c.hash(c.makeKey(rootKey), id))
  }

  function AddCaveat(c: Crypto, m: Macaroon, cav: Caveat): Macaroon
  {
    m.(caveats := m.caveats + [cav], sig := KeyedHash2(c, m.sig, cav.vid, cav.id))
  }

  function AddThirdPartyCaveat(c: Crypto, m: Macaroon, rootKey: bytes, id: bytes, location: bytes, nonce: bytes): Macaroon
  {
    AddCaveat(c, m, Caveat(id, Encrypt(c, m.sig, c.makeKey(rootKey), nonce), location))
  }

  function Bind(c: Crypto, m: Macaroon, sig: bytes): Macaroon
  {
    m.(sig := BindForRequest(c, sig, m.sig))
  }

  // ------------------------------------------------------------------ verifying

  /** The discharge the inner loop settles on: the first with the id, or |ds|. */
  function FirstWithId(ds: seq<Macaroon>, id: bytes): (i: nat)
    ensures i <= |ds|
    ensures i < |ds| ==> ds[i].id == id
    ensures forall j :: 0 <= j < i ==> ds[j].id != id
  {
    if ds == [] then 0
    else if ds[0].id == id then 0
    else 1 + FirstWithId(ds[1..], id)
  }

  /** Discharges not used so far. */
  function Unused(used: seq<nat>): nat
  {
    if used == [] then 0 else (if used[0] == 0 then 1 else 0) + Unused(used[1..])
  }

  predicate AtLeast(b: seq<nat>, a: seq<nat>)
  {
    |a| == |b| && forall k :: 0 <= k < |a| ==> a[k] <= b[k]
  }

  lemma {:induction false} UnusedShrinks(a: seq<nat>, b: seq<nat>)
    requires AtLeast(b, a)
    ensures Unused(b) <= Unused(a)
  {
    if a != [] {
      UnusedShrinks(a[1..], b[1..]);
    }
  }

  lemma {:induction false} UseOne(used: seq<nat>, di: nat)
    requires di < |used| && used[di] == 0
    ensures Unused(used[di := 1]) < Unused(used)
  {
    if di > 0 {
      UseOne(used[1..], di - 1);
      assert used[di := 1][1..] == used[1..][di - 1 := 1];
    }
  }

  /** The caveat loop of verify from some caveat on: the counters after it, or None for an error. */
  function VerifyCaveats(c: Crypto, cavs: seq<Caveat>, sig: bytes, rootSig: bytes, check: bytes -> bool,
                         ds: seq<Macaroon>, used: seq<nat>): (r: Option<seq<nat>>)
    requires |used| == |ds|
    ensures r.Some? ==> AtLeast(r.value, used)
    decreases Unused(used), |cavs|
  {
    if cavs == [] then Some(used)
    else
      var cav := cavs[0];
      var next := KeyedHash2(c, sig, cav.vid, cav.id);
      if cav.IsThirdParty() then
        var key := Decrypt(c, sig, cav.vid);
        var di := FirstWithId(ds, cav.id);
        if key.None? || di == |ds| || used[di] > 0 then None
        else
          UseOne(used, di);
          match VerifyMacaroon(c, ds[di], key.value, rootSig, check, ds, used[di := 1])
          case None => None
          case Some(now) =>
            UnusedShrinks(used[di := 1], now);
            VerifyCaveats(c, cavs[1..], next, rootSig, check, ds, now)
      else if check(cav.id) then VerifyCaveats(c, cavs[1..], next, rootSig, check, ds, used)
      else None
  }

  /** verify. */
  function VerifyMacaroon(c: Crypto, m: Macaroon, key: bytes, rootSig: bytes, check: bytes -> bool,
                          ds: seq<Macaroon>, used: seq<nat>): (r: Option<seq<nat>>)
    requires |used| == |ds|
    ensures r.Some? ==> AtLeast(r.value, used)
    decreases Unused(used), |m.caveats| + 1
  {
    var sig := c.hash(key, m.id);
    match VerifyCaveats(c, m.caveats, sig, rootSig, check, ds, used)
    case None => None
    case Some(now) => if BindForRequest(c, rootSig, Chain(c, m.caveats, sig)) == m.sig then Some(now) else None
  }

  function Zeros(n: nat): seq<nat>
  {
    seq(n, i => 0)
  }

  predicate AllOnce(used: seq<nat>)
  {
    forall i :: 0 <= i < |used| ==> used[i] == 1
  }

  /** Verify: everything verified, and every discharge used once. */
  predicate Accepts(c: Crypto, m: Macaroon, rootKey: bytes, check: bytes -> bool, ds: seq<Macaroon>)
  {
    match VerifyMacaroon(c, m, c.makeKey(rootKey), m.sig, check, ds, Zeros(|ds|))
    case None => false
    case Some(used) => AllOnce(used)
  }

  lemma {:induction false} ChainStep(c: Crypto, cavs: seq<Caveat>, i: nat, sig: bytes)
    requires i < |cavs|
    ensures Chain(c, cavs[..i + 1], sig) == KeyedHash2(c, Chain(c, cavs[..i], sig), cavs[i].vid, cavs[i].id)
    decreases i
  {
    if i == 0 {
      assert cavs[..1][1..] == [] && cavs[..0] == [];
    } else {
      assert cavs[..i + 1][1..] == cavs[1..][..i] && cavs[..i][1..] == cavs[1..][..i - 1];
      ChainStep(c, cavs[1..], i - 1, KeyedHash2(c, sig, cavs[0].vid, cavs[0].id));
    }
  }

  /** The search of verify's inner loop. */
  method FindDischarge(ds: seq<Macaroon>, id: bytes) returns (di: nat)
    ensures di == FirstWithId(ds, id)
  {
    di := 0;
    while di < |ds| && ds[di].id != id
      invariant 0 <= di <= |ds|
      invariant forall j :: 0 <= j < di ==> ds[j].id != id
    {
      di := di + 1;
    }
    FirstIs(ds, id, di);
  }

  lemma ChainOfNone(c: Crypto, sig: bytes)
    ensures Chain(c, [], sig) == sig
  {
  }

  lemma NoCaveats(c: Crypto, sig: bytes, rootSig: bytes, check: bytes -> bool, ds: seq<Macaroon>, used: seq<nat>)
    requires |used| == |ds|
    ensures VerifyCaveats(c, [], sig, rootSig, check, ds, used) == Some(used)
  {
  }

  /** What one turn of the caveat loop decides. */
  lemma CaveatStep(c: Crypto, cavs: seq<Caveat>, sig: bytes, rootSig: bytes, check: bytes -> bool,
                   ds: seq<Macaroon>, used: seq<nat>)
    requires |used| == |ds| && cavs != []
    ensures var cav := cavs[0];
            var next := KeyedHash2(c, sig, cav.vid, cav.id);
            var r := VerifyCaveats(c, cavs, sig, rootSig, check, ds, used);
            if cav.IsThirdParty() then
              var key := Decrypt(c, sig, cav.vid);
              var di := FirstWithId(ds, cav.id);
              if key.None? || di == |ds| || used[di] > 0 then r == None
              else
                var below := VerifyMacaroon(c, ds[di], key.value, rootSig, check, ds, used[di := 1]);
                if below.None? then r == None
                else r == VerifyCaveats(c, cavs[1..], next, rootSig, check, ds, below.value)
            else if check(cav.id) then r == VerifyCaveats(c, cavs[1..], next, rootSig, check, ds, used)
            else r == None
  {
    hide Decrypt, KeyedHash2, VerifyMacaroon;
  }

  /** verify as it runs: the counters are one array shared by all calls. */
  method Verify(c: Crypto, m: Macaroon, key: bytes, rootSig: bytes, check: bytes -> bool,
                ds: seq<Macaroon>, used: array<nat>) returns (ok: bool)
    requires used.Length == |ds|
    modifies used
    ensures var r := VerifyMacaroon(c, m, key, rootSig, check, ds, old(used[..]));
            ok == r.Some? && (ok ==> used[..] == r.value)
    decreases Unused(used[..]), |m.caveats| + 1
  {
    hide Decrypt, KeyedHash2, BindForRequest, VerifyCaveats, Chain, Unused, FirstWithId;
    ghost var before := used[..];
    var first := c.hash(key, m.id);
    var caveatSig := first;
    ChainOfNone(c, first);
    var i := 0;
    while i < |m.caveats|
      invariant 0 <= i <= |m.caveats|
      invariant caveatSig == Chain(c, m.caveats[..i], first)
      invariant AtLeast(used[..], before)
      invariant VerifyCaveats(c, m.caveats[i..], caveatSig, rootSig, check, ds, used[..])
             == VerifyCaveats(c, m.caveats, first, rootSig, check, ds, before)
    {
      var cav := m.caveats[i];
      assert m.caveats[i..][0] == cav && m.caveats[i..][1..] == m.caveats[i + 1..];
      ghost var now := used[..];
      UnusedShrinks(before, now);
      CaveatStep(c, m.caveats[i..], caveatSig, rootSig, check, ds, now);
      if cav.IsThirdParty() {
        var cavKey := Decrypt(c, caveatSig, cav.vid);
        if cavKey.None? {
          return false;
        }
        var di := FindDischarge(ds, cav.id);
        if di == |ds| {
          return false;
        }
        used[di] := used[di] + 1;
        if used[di] > 1 {
          return false;
        }
        assert used[..] == now[di := 1];
        UseOne(now, di);
        var verified := Verify(c, ds[di], cavKey.value, rootSig, check, ds, used);
        if !verified {
          return false;
        }
      } else if !check(cav.id) {
        return false;
      }
      ChainStep(c, m.caveats, i, first);
      caveatSig := KeyedHash2(c, caveatSig, cav.vid, cav.id);
      i := i + 1;
    }
    assert m.caveats[..i] == m.caveats && m.caveats[i..] == [];
    NoCaveats(c, caveatSig, rootSig, check, ds, used[..]);
    ok := BindForRequest(c, rootSig, caveatSig) == m.sig;
  }

  lemma FirstIs(ds: seq<Macaroon>, id: bytes, di: nat)
    requires di <= |ds| && (forall j :: 0 <= j < di ==> ds[j].id != id)
    requires di < |ds| ==> ds[di].id == id
    ensures FirstWithId(ds, id) == di
  {
  }

  /** Macaroon.Verify. */
  method VerifyRequest(c: Crypto, m: Macaroon, rootKey: bytes, check: bytes -> bool, ds: seq<Macaroon>) returns (ok: bool)
    ensures ok == Accepts(c, m, rootKey, check, ds)
  {
    var derivedKey := c.makeKey(rootKey);
    var used := new nat[|ds|](i => 0);
    assert used[..] == Zeros(|ds|);
    ok := Verify(c, m, derivedKey, m.sig, check, ds, used);
    if !ok {
      return false;
    }
    for i := 0 to |ds|
      invariant forall j :: 0 <= j < i ==> used[j] == 1
    {
      if used[i] != 1 {
        return false;
      }
    }
    return true;
  }
}
