/**
 What a macaroon's signature protects: the hash calls behind it, written out, and what follows when no two
 of the calls that are made collide.
 */
module MacaroonIntegrity {
  import opened Base
  import opened MacaroonVerify
  import opened MacaroonTheorems

  // ------------------------------------------------------------------ the calls

  /** Keyed hash of a key and of data. */
  type Call = (bytes, bytes)

  /** The signature after a first-party caveat is the hash of its id under the signature before it; after a
      third-party caveat it is that of two hashes, of its verification id and of its id. */
  lemma SignatureAfter(c: Crypto, m: Macaroon, cav: Caveat)
    ensures var sig := AddCaveat(c, m, cav).sig;
            && (cav.vid == [] ==> sig == c.hash(m.sig, cav.id))
            && (cav.vid != [] ==> sig == c.hash(m.sig, c.hash(m.sig, cav.vid) + c.hash(m.sig, cav.id)))
  {
  }

  /** Binding to a root signature hashes both under a key of 32 zeros, except for the root itself. */
  lemma SignatureBound(c: Crypto, m: Macaroon, rootSig: bytes)
    requires rootSig != []
    ensures var zeros, sig := seq(32, i => 0), Bind(c, m, rootSig).sig;
            sig == if rootSig == m.sig then m.sig else c.hash(zeros, c.hash(zeros, rootSig) + c.hash(zeros, m.sig))
  {
    assert ZeroKey() == seq(32, i => 0);
  }

  /** The calls for one caveat, the last of them for the next signature. */
  function CallsFor(c: Crypto, sig: bytes, cav: Caveat): (calls: seq<Call>)
    ensures calls != []
  {
    if cav.vid == [] then [(sig, cav.id)]
    else [(sig, cav.vid), (sig, cav.id), (sig, c.hash(sig, cav.vid) + c.hash(sig, cav.id))]
  }

  function Hashed(c: Crypto, call: Call): bytes
  {
    c.hash(call.0, call.1)
  }

  function Last(calls: seq<Call>): Call
    requires calls != []
  {
    calls[|calls| - 1]
  }

  /** The calls for a list of caveats. */
  function CallsForAll(c: Crypto, sig: bytes, cavs: seq<Caveat>): set<Call>
    decreases |cavs|
  {
    if cavs == [] then {}
    else
      var calls := CallsFor(c, sig, cavs[0]);
      (set call <- calls) + CallsForAll(c, Hashed(c, Last(calls)), cavs[1..])
  }

  /** No two of the calls have the same result. */
  ghost predicate CollisionFree(c: Crypto, calls: set<Call>)
  {
    forall a <- calls, b <- calls :: Hashed(c, a) == Hashed(c, b) ==> a == b
  }

  ghost predicate LongHashes(c: Crypto)
  {
    forall k, d :: |c.hash(k, d)| == 32
  }

  /** The chain is made by these calls. */
  lemma ChainCalls(c: Crypto, cavs: seq<Caveat>, sig: bytes)
    requires cavs != []
    ensures Chain(c, cavs, sig) == Chain(c, cavs[1..], Hashed(c, Last(CallsFor(c, sig, cavs[0]))))
  {
  }

  lemma {:induction false} ChainSplits(c: Crypto, cavs: seq<Caveat>, last: Caveat, sig: bytes)
    ensures var before := Chain(c, cavs, sig);
            && Chain(c, cavs + [last], sig) == Hashed(c, Last(CallsFor(c, before, last)))
            && CallsForAll(c, sig, cavs + [last]) == CallsForAll(c, sig, cavs) + set call <- CallsFor(c, before, last)
    decreases |cavs|
  {
    hide CallsFor, KeyedHash2;
    if cavs == [] {
      assert (cavs + [last])[1..] == [];
      ChainCalls(c, [last], sig);
    } else {
      assert (cavs + [last])[1..] == cavs[1..] + [last];
      ChainCalls(c, cavs, sig);
      ChainCalls(c, cavs + [last], sig);
      ChainSplits(c, cavs[1..], last, Hashed(c, Last(CallsFor(c, sig, cavs[0]))));
    }
  }

  // ------------------------------------------------------------------ caveats

  /** The caveats have the same ids and verification ids; locations are hints that nothing signs. */
  predicate SameParts(a: seq<Caveat>, b: seq<Caveat>)
  {
    |a| == |b| && forall i :: 0 <= i < |a| ==> a[i].id == b[i].id && a[i].vid == b[i].vid
  }

  /** No first-party id can be taken for two hashes in a row. */
  predicate NoneMimics(cavs: seq<Caveat>)
  {
    forall i :: 0 <= i < |cavs| ==> cavs[i].vid == [] ==> |cavs[i].id| != 64
  }

  /** The signature never comes back to the key of the macaroon. */
  predicate NeverBackTo(c: Crypto, key: bytes, cavs: seq<Caveat>, sig: bytes)
  {
    forall i :: 0 <= i <= |cavs| ==> Chain(c, cavs[..i], sig) != key
  }

  /** One caveat: the same signature comes of the same caveat under the same signature. */
  lemma OneSealed(c: Crypto, calls: set<Call>, s: bytes, a: Caveat, t: bytes, b: Caveat)
    requires LongHashes(c) && CollisionFree(c, calls)
    requires (forall x <- CallsFor(c, s, a) :: x in calls) && (forall x <- CallsFor(c, t, b) :: x in calls)
    requires (a.vid == [] ==> |a.id| != 64) && (b.vid == [] ==> |b.id| != 64)
    requires Hashed(c, Last(CallsFor(c, s, a))) == Hashed(c, Last(CallsFor(c, t, b)))
    ensures s == t && a.id == b.id && a.vid == b.vid
  {
    var x, y := CallsFor(c, s, a), CallsFor(c, t, b);
    assert Last(x) in x && Last(y) in y;
    assert Last(x) == Last(y);
    if a.vid != [] && b.vid != [] {
      var ha, hb := c.hash(s, a.vid), c.hash(s, b.vid);
      assert (ha + c.hash(s, a.id))[..32] == ha && (hb + c.hash(s, b.id))[..32] == hb;
      assert (ha + c.hash(s, a.id))[32..] == c.hash(s, a.id) && (hb + c.hash(s, b.id))[32..] == c.hash(s, b.id);
      assert x[0] in calls && x[1] in calls && y[0] in calls && y[1] in calls;
      assert Hashed(c, x[0]) == Hashed(c, y[0]) && Hashed(c, x[1]) == Hashed(c, y[1]);
    }
  }

  /** The first signature is the hash of the id under the key, so no caveat leads back to it. */
  lemma {:induction false} ChainSealed(c: Crypto, calls: set<Call>, key: bytes, id: bytes, a: seq<Caveat>, b: seq<Caveat>)
    requires LongHashes(c) && CollisionFree(c, calls) && (key, id) in calls
    requires CallsForAll(c, c.hash(key, id), a) <= calls && CallsForAll(c, c.hash(key, id), b) <= calls
    requires NoneMimics(a) && NoneMimics(b)
    requires NeverBackTo(c, key, a, c.hash(key, id)) && NeverBackTo(c, key, b, c.hash(key, id))
    requires Chain(c, a, c.hash(key, id)) == Chain(c, b, c.hash(key, id))
    ensures SameParts(a, b)
    decreases |a|
  {
    hide Chain, CallsFor, CallsForAll, LongHashes, CollisionFree, NeverBackTo;
    var first := c.hash(key, id);
    ChainOfNone(c, first);
    if a == [] && b == [] {
    } else if a == [] {
      NotBack(c, calls, key, id, b);
      assert false;
    } else if b == [] {
      NotBack(c, calls, key, id, a);
      assert false;
    } else {
      var m, n := |a| - 1, |b| - 1;
      LastApart(c, calls, key, id, a);
      LastApart(c, calls, key, id, b);
      OneSealed(c, calls, Chain(c, a[..m], first), a[m], Chain(c, b[..n], first), b[n]);
      ChainSealed(c, calls, key, id, a[..m], b[..n]);
      assert forall i :: 0 <= i < m ==> a[..m][i] == a[i];
      assert m == n ==> forall i :: 0 <= i < n ==> b[..n][i] == b[i];
    }
  }

  lemma LastApart(c: Crypto, calls: set<Call>, key: bytes, id: bytes, a: seq<Caveat>)
    requires a != [] && CallsForAll(c, c.hash(key, id), a) <= calls
    requires NoneMimics(a) && NeverBackTo(c, key, a, c.hash(key, id))
    ensures var first, m := c.hash(key, id), |a| - 1;
            && Chain(c, a, first) == Hashed(c, Last(CallsFor(c, Chain(c, a[..m], first), a[m])))
            && (forall x <- CallsFor(c, Chain(c, a[..m], first), a[m]) :: x in calls)
            && CallsForAll(c, first, a[..m]) <= calls
            && NoneMimics(a[..m]) && (a[m].vid == [] ==> |a[m].id| != 64)
            && NeverBackTo(c, key, a[..m], first) && Chain(c, a[..m], first) != key
  {
    hide Chain, CallsFor, CallsForAll, Hashed;
    var first, m := c.hash(key, id), |a| - 1;
    assert a == a[..m] + [a[m]];
    ChainSplits(c, a[..m], a[m], first);
    assert forall i :: 0 <= i < m ==> a[..m][i] == a[i];
    assert forall i :: 0 <= i <= m ==> a[..m][..i] == a[..i];
    assert forall x <- CallsFor(c, Chain(c, a[..m], first), a[m]) :: x in set call <- CallsFor(c, Chain(c, a[..m], first), a[m]);
  }

  lemma NotBack(c: Crypto, calls: set<Call>, key: bytes, id: bytes, a: seq<Caveat>)
    requires CollisionFree(c, calls) && (key, id) in calls && a != []
    requires CallsForAll(c, c.hash(key, id), a) <= calls
    requires NoneMimics(a) && NeverBackTo(c, key, a, c.hash(key, id))
    ensures Chain(c, a, c.hash(key, id)) != c.hash(key, id)
  {
    hide Chain, CallsForAll;
    LastApart(c, calls, key, id, a);
    var m := |a| - 1;
    var x := CallsFor(c, Chain(c, a[..m], c.hash(key, id)), a[m]);
    assert Last(x) in x;
    assert Hashed(c, (key, id)) == c.hash(key, id);
  }

  /** The signature is what the chain becomes when it is bound to a root signature. */
  predicate IsBinding(c: Crypto, sig: bytes, rootSig: bytes, chain: bytes)
  {
    var zeros := seq(32, i => 0);
    sig == c.hash(zeros, c.hash(zeros, rootSig) + c.hash(zeros, chain))
  }

  lemma AcceptedIsChain(c: Crypto, m: Macaroon, rootKey: bytes, check: bytes -> bool, ds: seq<Macaroon>)
    requires Accepts(c, m, rootKey, check, ds) && LongHashes(c)
    ensures var chain := Chain(c, m.caveats, c.hash(c.makeKey(rootKey), m.id));
            chain == m.sig || IsBinding(c, m.sig, m.sig, chain)
  {
    hide Accepts, Chain;
    AcceptedChain(c, m, rootKey, check, ds);
    var chain := Chain(c, m.caveats, c.hash(c.makeKey(rootKey), m.id));
    assert ZeroKey() == seq(32, i => 0);
    assert |c.hash(ZeroKey(), chain)| == 32;
  }

  /** Two macaroons with the same id and signature that verify under the same root key, whatever the discharges,
      have the same caveats: none can be taken away, added, moved or altered. The hash is only asked not to
      collide on the calls for these two, nor to come back to the key or to its own binding. */
  lemma CaveatsAreSealed(c: Crypto, rootKey: bytes, m: Macaroon, check: bytes -> bool, ds: seq<Macaroon>,
                         n: Macaroon, otherCheck: bytes -> bool, otherDs: seq<Macaroon>)
    requires Accepts(c, m, rootKey, check, ds) && Accepts(c, n, rootKey, otherCheck, otherDs)
    requires m.id == n.id && m.sig == n.sig
    requires LongHashes(c) && NoneMimics(m.caveats) && NoneMimics(n.caveats)
    requires var key := c.makeKey(rootKey);
             var first := c.hash(key, m.id);
             && CollisionFree(c, {(key, m.id)} + CallsForAll(c, first, m.caveats) + CallsForAll(c, first, n.caveats))
             && NeverBackTo(c, key, m.caveats, first) && NeverBackTo(c, key, n.caveats, first)
             && !IsBinding(c, m.sig, m.sig, Chain(c, m.caveats, first))
             && !IsBinding(c, n.sig, n.sig, Chain(c, n.caveats, first))
    ensures SameParts(m.caveats, n.caveats)
  {
    hide Accepts, Chain, CallsForAll, CollisionFree, NeverBackTo, IsBinding, NoneMimics, SameParts;
    AcceptedIsChain(c, m, rootKey, check, ds);
    AcceptedIsChain(c, n, rootKey, otherCheck, otherDs);
    var key := c.makeKey(rootKey);
    var first := c.hash(key, m.id);
    var calls := {(key, m.id)} + CallsForAll(c, first, m.caveats) + CallsForAll(c, first, n.caveats);
    assert (key, m.id) in calls;
    ChainSealed(c, calls, key, m.id, m.caveats, n.caveats);
  }

  /** The input for which ids of 64 bytes are left out: a first-party caveat whose id is the two hashes of a
      third-party caveat has the same signature. */
  lemma MimickedThirdParty(c: Crypto, m: Macaroon, id: bytes, vid: bytes, location: bytes)
    requires vid != [] && LongHashes(c)
    ensures var mimic := c.hash(m.sig, vid) + c.hash(m.sig, id);
            && |mimic| == 64
            && AddCaveat(c, m, Caveat(mimic, [], [])).sig == AddCaveat(c, m, Caveat(id, vid, location)).sig
  {
  }

  /** Locations are not signed. */
  lemma {:induction false} LocationsAreHints(c: Crypto, a: seq<Caveat>, b: seq<Caveat>, sig: bytes)
    requires SameParts(a, b)
    ensures Chain(c, a, sig) == Chain(c, b, sig)
    decreases |a|
  {
    hide KeyedHash2;
    if a != [] {
      LocationsAreHints(c, a[1..], b[1..], KeyedHash2(c, sig, a[0].vid, a[0].id));
    }
  }

  // ------------------------------------------------------------------ discharges

  /** The calls for binding a discharge with this chain to a root signature. */
  function BindingCalls(c: Crypto, rootSig: bytes, chain: bytes): set<Call>
  {
    var zeros := seq(32, i => 0);
    {(zeros, rootSig), (zeros, chain), (zeros, c.hash(zeros, rootSig) + c.hash(zeros, chain))}
  }

  /** A discharge proven under two root signatures serves one macaroon only: they are the same. */
  lemma DischargeServesOne(c: Crypto, m: Macaroon, key: bytes, check: bytes -> bool, ds: seq<Macaroon>,
                           rootSig: bytes, t: Tree, otherSig: bytes, u: Tree)
    requires Proves(c, m, key, rootSig, check, ds, t) && Proves(c, m, key, otherSig, check, ds, u)
    requires rootSig != [] && otherSig != [] && LongHashes(c)
    requires var chain := Chain(c, m.caveats, c.hash(key, m.id));
             && CollisionFree(c, BindingCalls(c, rootSig, chain) + BindingCalls(c, otherSig, chain))
             && !IsBinding(c, chain, rootSig, chain) && !IsBinding(c, chain, otherSig, chain)
    ensures rootSig == otherSig
  {
    hide Answers, Chain;
    var chain, zeros := Chain(c, m.caveats, c.hash(key, m.id)), seq(32, i => 0);
    assert ZeroKey() == zeros;
    if rootSig != chain && otherSig != chain {
      BindingIsSealed(c, rootSig, otherSig, chain);
    }
  }

  lemma BindingIsSealed(c: Crypto, rootSig: bytes, otherSig: bytes, chain: bytes)
    requires LongHashes(c) && CollisionFree(c, BindingCalls(c, rootSig, chain) + BindingCalls(c, otherSig, chain))
    requires var zeros := seq(32, i => 0);
             c.hash(zeros, c.hash(zeros, rootSig) + c.hash(zeros, chain))
             == c.hash(zeros, c.hash(zeros, otherSig) + c.hash(zeros, chain))
    ensures rootSig == otherSig
  {
    var zeros := seq(32, i => 0);
    var h, a, b := c.hash(zeros, chain), c.hash(zeros, rootSig), c.hash(zeros, otherSig);
    var calls := BindingCalls(c, rootSig, chain) + BindingCalls(c, otherSig, chain);
    assert (zeros, a + h) in calls && (zeros, b + h) in calls && (zeros, rootSig) in calls && (zeros, otherSig) in calls;
    assert Hashed(c, (zeros, a + h)) == Hashed(c, (zeros, b + h));
    assert (a + h)[..32] == a && (b + h)[..32] == b;
    assert Hashed(c, (zeros, rootSig)) == Hashed(c, (zeros, otherSig));
  }
}
