/**
 What a successful verification means, for any input and for minted macaroons.
 */
module MacaroonTheorems {
  import opened Base
  import opened MacaroonVerify

  // ------------------------------------------------------------------ any input

  /** Which discharge answers each third-party caveat, in order, and how it is itself answered. */
  datatype Tree = Leaf | Node(di: nat, below: Tree, next: Tree)

  /** The tree answers the caveats: every first-party condition is accepted, and every third-party
      caveat is answered by the first discharge with its id, verified with the key it holds. */
  predicate Answers(c: Crypto, cavs: seq<Caveat>, sig: bytes, rootSig: bytes, check: bytes -> bool,
                    ds: seq<Macaroon>, t: Tree)
    decreases t, |cavs|
  {
    if cavs == [] then t == Leaf
    else
      var cav := cavs[0];
      var after := KeyedHash2(c, sig, cav.vid, cav.id);
      if cav.IsThirdParty() then
        && t.Node?
        && FirstWithId(ds, cav.id) == t.di < |ds|
        && Decrypt(c, sig, cav.vid).Some?
        && Proves(c, ds[t.di], Decrypt(c, sig, cav.vid).value, rootSig, check, ds, t.below)
        && Answers(c, cavs[1..], after, rootSig, check, ds, t.next)
      else
        check(cav.id) && Answers(c, cavs[1..], after, rootSig, check, ds, t)
  }

  /** The tree proves a macaroon under a key: its caveats are answered, and the chain over them,
      bound to the root signature, is its own signature. */
  predicate Proves(c: Crypto, m: Macaroon, key: bytes, rootSig: bytes, check: bytes -> bool,
                   ds: seq<Macaroon>, t: Tree)
    decreases t, |m.caveats| + 1
  {
    var sig := c.hash(key, m.id);
    && Answers(c, m.caveats, sig, rootSig, check, ds, t)
    && BindForRequest(c, rootSig, Chain(c, m.caveats, sig)) == m.sig
  }

  /** The discharges a tree uses. */
  function Uses(t: Tree): multiset<nat>
  {
    match t
    case Leaf => multiset{}
    case Node(di, below, next) => multiset{di} + Uses(below) + Uses(next)
  }

  /** Counters after more uses. */
  predicate Counted(before: seq<nat>, uses: multiset<nat>, after: seq<nat>)
  {
    |before| == |after| && forall k :: 0 <= k < |before| ==> after[k] == before[k] + uses[k]
  }

  /** No counter would pass one. */
  predicate Room(used: seq<nat>, uses: multiset<nat>)
  {
    forall k :: 0 <= k < |used| ==> used[k] + uses[k] <= 1
  }

  lemma RoomSplits(used: seq<nat>, di: nat, below: multiset<nat>, next: multiset<nat>)
    requires di < |used| && Room(used, multiset{di} + below + next)
    ensures used[di] == 0 && Room(used[di := 1], below)
    ensures forall now :: Counted(used[di := 1], below, now) ==> Room(now, next)
  {
    assert (multiset{di} + below + next)[di] >= 1;
  }

  /** A tree that never uses a discharge twice is what the caveat loop follows. */
  lemma {:induction false} AnswersVerify(c: Crypto, cavs: seq<Caveat>, sig: bytes, rootSig: bytes, check: bytes -> bool,
                                         ds: seq<Macaroon>, used: seq<nat>, t: Tree)
    requires |used| == |ds| && Answers(c, cavs, sig, rootSig, check, ds, t) && Room(used, Uses(t))
    ensures var r := VerifyCaveats(c, cavs, sig, rootSig, check, ds, used);
            r.Some? && Counted(used, Uses(t), r.value)
    decreases t, |cavs|
  {
    hide Decrypt, KeyedHash2, BindForRequest, FirstWithId, Proves, VerifyMacaroon;
    if cavs != [] {
      var cav := cavs[0];
      var after := KeyedHash2(c, sig, cav.vid, cav.id);
      if cav.IsThirdParty() {
        var key := Decrypt(c, sig, cav.vid).value;
        RoomSplits(used, t.di, Uses(t.below), Uses(t.next));
        hide Room, Counted;
        ProvesVerify(c, ds[t.di], key, rootSig, check, ds, used[t.di := 1], t.below);
        var now := VerifyMacaroon(c, ds[t.di], key, rootSig, check, ds, used[t.di := 1]).value;
        AnswersVerify(c, cavs[1..], after, rootSig, check, ds, now, t.next);
        CountedTogether(used, t.di, Uses(t.below), now, Uses(t.next),
                        VerifyCaveats(c, cavs[1..], after, rootSig, check, ds, now).value);
      } else {
        AnswersVerify(c, cavs[1..], after, rootSig, check, ds, used, t);
      }
    }
  }

  lemma {:induction false} ProvesVerify(c: Crypto, m: Macaroon, key: bytes, rootSig: bytes, check: bytes -> bool,
                                        ds: seq<Macaroon>, used: seq<nat>, t: Tree)
    requires |used| == |ds| && Proves(c, m, key, rootSig, check, ds, t) && Room(used, Uses(t))
    ensures var r := VerifyMacaroon(c, m, key, rootSig, check, ds, used);
            r.Some? && Counted(used, Uses(t), r.value)
    decreases t, |m.caveats| + 1
  {
    hide Decrypt, KeyedHash2, BindForRequest, FirstWithId, VerifyCaveats, Answers;
    AnswersVerify(c, m.caveats, c.hash(key, m.id), rootSig, check, ds, used, t);
  }

  lemma CountedTogether(used: seq<nat>, di: nat, below: multiset<nat>, now: seq<nat>, next: multiset<nat>, end: seq<nat>)
    requires di < |used| && used[di] == 0 && Counted(used[di := 1], below, now) && Counted(now, next, end)
    ensures Counted(used, multiset{di} + below + next, end)
  {
  }

  /** Conversely, a caveat loop that succeeds has followed a tree. */
  lemma {:induction false} VerifyAnswers(c: Crypto, cavs: seq<Caveat>, sig: bytes, rootSig: bytes, check: bytes -> bool,
                                         ds: seq<Macaroon>, used: seq<nat>) returns (t: Tree)
    requires |used| == |ds| && VerifyCaveats(c, cavs, sig, rootSig, check, ds, used).Some?
    ensures Answers(c, cavs, sig, rootSig, check, ds, t)
    ensures Counted(used, Uses(t), VerifyCaveats(c, cavs, sig, rootSig, check, ds, used).value)
    decreases Unused(used), |cavs|
  {
    hide Decrypt, KeyedHash2, BindForRequest, FirstWithId, VerifyMacaroon, Proves;
    if cavs == [] {
      t := Leaf;
    } else {
      var cav := cavs[0];
      var after := KeyedHash2(c, sig, cav.vid, cav.id);
      if cav.IsThirdParty() {
        var di, key := FirstWithId(ds, cav.id), Decrypt(c, sig, cav.vid).value;
        UseOne(used, di);
        var below := VerifyProves(c, ds[di], key, rootSig, check, ds, used[di := 1]);
        var now := VerifyMacaroon(c, ds[di], key, rootSig, check, ds, used[di := 1]).value;
        UnusedShrinks(used[di := 1], now);
        var next := VerifyAnswers(c, cavs[1..], after, rootSig, check, ds, now);
        CountedTogether(used, di, Uses(below), now, Uses(next),
                        VerifyCaveats(c, cavs[1..], after, rootSig, check, ds, now).value);
        t := Node(di, below, next);
      } else {
        t := VerifyAnswers(c, cavs[1..], after, rootSig, check, ds, used);
      }
    }
  }

  lemma {:induction false} VerifyProves(c: Crypto, m: Macaroon, key: bytes, rootSig: bytes, check: bytes -> bool,
                                        ds: seq<Macaroon>, used: seq<nat>) returns (t: Tree)
    requires |used| == |ds| && VerifyMacaroon(c, m, key, rootSig, check, ds, used).Some?
    ensures Proves(c, m, key, rootSig, check, ds, t)
    ensures Counted(used, Uses(t), VerifyMacaroon(c, m, key, rootSig, check, ds, used).value)
    decreases Unused(used), |m.caveats| + 1
  {
    hide Decrypt, KeyedHash2, BindForRequest, FirstWithId, VerifyCaveats, Answers;
    t := VerifyAnswers(c, m.caveats, c.hash(key, m.id), rootSig, check, ds, used);
  }

  /** A tree that uses every discharge once. */
  ghost predicate UsesAllOnce(t: Tree, n: nat)
  {
    forall k :: 0 <= k < n ==> Uses(t)[k] == 1
  }

  /** For any macaroon, key and discharges: Verify succeeds exactly when a tree of discharges that
      uses each one once proves the macaroon under its root key. */
  lemma AcceptsExactly(c: Crypto, m: Macaroon, rootKey: bytes, check: bytes -> bool, ds: seq<Macaroon>)
    ensures Accepts(c, m, rootKey, check, ds)
       <==> exists t :: Proves(c, m, c.makeKey(rootKey), m.sig, check, ds, t) && UsesAllOnce(t, |ds|)
  {
    hide Proves, VerifyMacaroon;
    var key := c.makeKey(rootKey);
    if Accepts(c, m, rootKey, check, ds) {
      var t := VerifyProves(c, m, key, m.sig, check, ds, Zeros(|ds|));
      assert UsesAllOnce(t, |ds|);
    }
    if exists t :: Proves(c, m, key, m.sig, check, ds, t) && UsesAllOnce(t, |ds|) {
      var t :| Proves(c, m, key, m.sig, check, ds, t) && UsesAllOnce(t, |ds|);
      ProvesVerify(c, m, key, m.sig, check, ds, Zeros(|ds|), t);
    }
  }

  /** Success on any input: the chain recomputed from the root key is the signature, or the
      signature is the binding of that chain to itself. */
  lemma AcceptedChain(c: Crypto, m: Macaroon, rootKey: bytes, check: bytes -> bool, ds: seq<Macaroon>)
    requires Accepts(c, m, rootKey, check, ds)
    ensures var chain := Chain(c, m.caveats, c.hash(c.makeKey(rootKey), m.id));
            chain == m.sig || KeyedHash2(c, ZeroKey(), m.sig, chain) == m.sig
  {
    hide VerifyCaveats, KeyedHash2, Chain;
  }

  /** A third-party caveat that is answered could be decrypted. */
  lemma {:induction false} AnsweredOpens(c: Crypto, cavs: seq<Caveat>, sig: bytes, rootSig: bytes, check: bytes -> bool,
                                         ds: seq<Macaroon>, t: Tree, i: nat)
    requires Answers(c, cavs, sig, rootSig, check, ds, t)
    requires i < |cavs| && cavs[i].IsThirdParty()
    ensures |cavs[i].vid| >= 40
    decreases i
  {
    hide KeyedHash2, FirstWithId, Proves;
    if i > 0 {
      var cav := cavs[0];
      AnsweredOpens(c, cavs[1..], KeyedHash2(c, sig, cav.vid, cav.id), rootSig, check, ds,
                    if cav.IsThirdParty() then t.next else t, i - 1);
    }
  }

  /** No macaroon is accepted with a third-party caveat whose verification id is too short to hold a key,
      such as the empty one that a reader may find. */
  lemma ShortVidIsRefused(c: Crypto, m: Macaroon, rootKey: bytes, check: bytes -> bool, ds: seq<Macaroon>, i: nat)
    requires i < |m.caveats| && m.caveats[i].IsThirdParty()
    requires |m.caveats[i].vid| < 40
    ensures !Accepts(c, m, rootKey, check, ds)
  {
    hide Answers, Accepts;
    var key := c.makeKey(rootKey);
    AcceptsExactly(c, m, rootKey, check, ds);
    if t :| Proves(c, m, key, m.sig, check, ds, t) && UsesAllOnce(t, |ds|) {
      AnsweredOpens(c, m.caveats, c.hash(key, m.id), m.sig, check, ds, t, i);
    }
  }

  // ------------------------------------------------------------------ minted macaroons

  /** What the minter of a macaroon asks for: its caveats, with the discharge each third party
      will mint for the same id and root key. */
  datatype Plan = Plan(id: bytes, location: bytes, conditions: seq<Condition>)
  datatype Condition =
    | First(id: bytes)
    | Third(rootKey: bytes, nonce: bytes, location: bytes, discharge: Plan)

  /** New, then one AddFirstPartyCaveat or AddThirdPartyCaveat for every condition. */
  function Mint(c: Crypto, rootKey: bytes, p: Plan): Macaroon
  {
    AddConditions(c, New(c, rootKey, p.id, p.location), p.conditions)
  }

  function AddConditions(c: Crypto, m: Macaroon, conds: seq<Condition>): Macaroon
    decreases |conds|
  {
    if conds == [] then m else AddConditions(c, AddCondition(c, m, conds[0]), conds[1..])
  }

  function AddCondition(c: Crypto, m: Macaroon, cond: Condition): Macaroon
  {
    match cond
    case First(id) => AddCaveat(c, m, Caveat(id, [], []))
    case Third(rootKey, nonce, location, d) => AddThirdPartyCaveat(c, m, rootKey, d.id, location, nonce)
  }

  /** The discharges for the conditions, each bound to the root signature, in depth-first order. */
  function Discharges(c: Crypto, rootSig: bytes, conds: seq<Condition>): seq<Macaroon>
    decreases conds
  {
    if conds == [] then []
    else
      (match conds[0]
       case First(_) => []
       case Third(rootKey, _, _, d) =>
         [Bind(c, Mint(c, rootKey, d), rootSig)] + Discharges(c, rootSig, d.conditions))
      + Discharges(c, rootSig, conds[1..])
  }

  /** Every first-party condition in the plan and in the plans of its discharges is accepted. */
  predicate AllAccepted(check: bytes -> bool, conds: seq<Condition>)
    decreases conds
  {
    conds == [] ||
    (&& (match conds[0]
         case First(id) => check(id)
         case Third(_, _, _, d) => AllAccepted(check, d.conditions))
     && AllAccepted(check, conds[1..]))
  }

  predicate NoncesOk(conds: seq<Condition>)
    decreases conds
  {
    conds == [] ||
    (&& (match conds[0]
         case First(_) => true
         case Third(_, nonce, _, d) => |nonce| == NONCE_LEN && NoncesOk(d.conditions))
     && NoncesOk(conds[1..]))
  }

  predicate DistinctIds(ds: seq<Macaroon>)
  {
    forall i, j :: 0 <= i < j < |ds| ==> ds[i].id != ds[j].id
  }

  /** The caveats a list of conditions adds, starting from a signature. */
  function CaveatsOf(c: Crypto, sig: bytes, conds: seq<Condition>): seq<Caveat>
    decreases |conds|
  {
    if conds == [] then []
    else
      var cav := CaveatOf(c, sig, conds[0]);
      [cav] + CaveatsOf(c, KeyedHash2(c, sig, cav.vid, cav.id), conds[1..])
  }

  function CaveatOf(c: Crypto, sig: bytes, cond: Condition): Caveat
  {
    match cond
    case First(id) => Caveat(id, [], [])
    case Third(rootKey, nonce, location, d) => Caveat(d.id, Encrypt(c, sig, c.makeKey(rootKey), nonce), location)
  }

  /** Minting chains the caveats it adds. */
  lemma {:induction false} MintedShape(c: Crypto, m: Macaroon, conds: seq<Condition>)
    ensures AddConditions(c, m, conds)
         == Macaroon(m.location, m.id, m.caveats + CaveatsOf(c, m.sig, conds), Chain(c, CaveatsOf(c, m.sig, conds), m.sig))
    decreases |conds|
  {
    hide KeyedHash2, Encrypt;
    if conds == [] {
      assert m.caveats + [] == m.caveats;
    } else {
      var cav := CaveatOf(c, m.sig, conds[0]);
      var next := AddCondition(c, m, conds[0]);
      assert next == AddCaveat(c, m, cav);
      MintedShape(c, next, conds[1..]);
      var cavs := CaveatsOf(c, m.sig, conds);
      assert cavs == [cav] + CaveatsOf(c, next.sig, conds[1..]);
      assert cavs[1..] == CaveatsOf(c, next.sig, conds[1..]);
      assert m.caveats + cavs == (m.caveats + [cav]) + cavs[1..];
    }
  }

  /** A third-party caveat gives up exactly the key it was minted with. */
  lemma SealedKey(c: Crypto, sig: bytes, rootKey: bytes, nonce: bytes)
    requires Sound(c) && |nonce| == NONCE_LEN
    ensures var vid := Encrypt(c, sig, c.makeKey(rootKey), nonce);
            && vid == nonce + c.seal(sig, nonce, c.makeKey(rootKey)) && |vid| == 72
            && Decrypt(c, sig, vid) == Some(c.makeKey(rootKey))
  {
    var key := c.makeKey(rootKey);
    var box := c.seal(sig, nonce, key);
    assert (nonce + box)[..NONCE_LEN] == nonce && (nonce + box)[NONCE_LEN..] == box;
    assert c.open(sig, nonce, box) == Some(key);
  }

  /** What can be decrypted: 24 octets of nonce and a box of at least 16 that opens to a key of 32. */
  lemma DecryptsExactly(c: Crypto, key: bytes, vid: bytes)
    ensures Decrypt(c, key, vid).Some?
       <==> |vid| >= 40 && c.open(key, vid[..24], vid[24..]).Some? && |c.open(key, vid[..24], vid[24..]).value| == 32
    ensures Decrypt(c, key, vid).Some? ==> Decrypt(c, key, vid) == c.open(key, vid[..24], vid[24..])
  {
  }

  /** Where each discharge of a plan sits in the list handed to Verify. */
  function TreeOf(conds: seq<Condition>, ds: seq<Macaroon>): Tree
    decreases conds
  {
    if conds == [] then Leaf
    else match conds[0]
      case First(_) => TreeOf(conds[1..], ds)
      case Third(_, _, _, d) => Node(FirstWithId(ds, d.id), TreeOf(d.conditions, ds), TreeOf(conds[1..], ds))
  }

  /** Every discharge of the conditions is in the list. */
  predicate Supplied(c: Crypto, rootSig: bytes, conds: seq<Condition>, ds: seq<Macaroon>)
  {
    forall d <- Discharges(c, rootSig, conds) :: d in ds
  }

  /** In a list without repeated ids the search finds the discharge that was minted for the id. */
  lemma FindsMinted(ds: seq<Macaroon>, d: Macaroon)
    requires DistinctIds(ds) && d in ds
    ensures FirstWithId(ds, d.id) < |ds| && ds[FirstWithId(ds, d.id)] == d
  {
    var j :| 0 <= j < |ds| && ds[j] == d;
    var i := FirstWithId(ds, d.id);
    assert i <= j;
  }

  lemma MintedId(c: Crypto, rootKey: bytes, p: Plan)
    ensures Mint(c, rootKey, p).id == p.id
    ensures Mint(c, rootKey, p).caveats == CaveatsOf(c, c.hash(c.makeKey(rootKey), p.id), p.conditions)
    ensures Mint(c, rootKey, p).sig
         == Chain(c, CaveatsOf(c, c.hash(c.makeKey(rootKey), p.id), p.conditions), c.hash(c.makeKey(rootKey), p.id))
  {
    hide KeyedHash2, Encrypt, AddConditions, Chain;
    MintedShape(c, New(c, rootKey, p.id, p.location), p.conditions);
    var cavs := CaveatsOf(c, c.hash(c.makeKey(rootKey), p.id), p.conditions);
    assert [] + cavs == cavs;
  }

  /** The tree of a plan answers its caveats exactly when every first-party condition is accepted. */
  lemma {:induction false} PlanAnswers(c: Crypto, sig: bytes, rootSig: bytes, check: bytes -> bool,
                                       conds: seq<Condition>, ds: seq<Macaroon>)
    requires Sound(c) && NoncesOk(conds) && DistinctIds(ds) && Supplied(c, rootSig, conds, ds)
    ensures Answers(c, CaveatsOf(c, sig, conds), sig, rootSig, check, ds, TreeOf(conds, ds)) <==> AllAccepted(check, conds)
    decreases conds
  {
    hide KeyedHash2, Encrypt, Decrypt, FirstWithId, Sound, Mint, BindForRequest;
    if conds != [] {
      var cav := CaveatOf(c, sig, conds[0]);
      var after := KeyedHash2(c, sig, cav.vid, cav.id);
      var cavs := CaveatsOf(c, sig, conds);
      assert cavs[0] == cav && cavs[1..] == CaveatsOf(c, after, conds[1..]);
      PlanAnswers(c, after, rootSig, check, conds[1..], ds);
      match conds[0] {
        case First(id) =>
        case Third(rootKey, nonce, location, d) =>
          SealedKey(c, sig, rootKey, nonce);
          var m := Mint(c, rootKey, d);
          var bound := Bind(c, m, rootSig);
          MintedId(c, rootKey, d);
          SuppliedParts(c, rootSig, conds, ds);
          assert bound.id == d.id;
          FindsMinted(ds, bound);
          PlanAnswers(c, c.hash(c.makeKey(rootKey), d.id), rootSig, check, d.conditions, ds);
      }
    }
  }

  lemma SuppliedParts(c: Crypto, rootSig: bytes, conds: seq<Condition>, ds: seq<Macaroon>)
    requires Supplied(c, rootSig, conds, ds) && conds != []
    ensures Supplied(c, rootSig, conds[1..], ds)
    ensures conds[0].Third? ==> Supplied(c, rootSig, conds[0].discharge.conditions, ds)
    ensures conds[0].Third? ==> Bind(c, Mint(c, conds[0].rootKey, conds[0].discharge), rootSig) in ds
  {
    hide Mint, Bind;
    var all := Discharges(c, rootSig, conds);
    match conds[0] {
      case First(_) =>
        assert all == Discharges(c, rootSig, conds[1..]);
      case Third(rootKey, _, _, d) =>
        var bound, inner, rest := Bind(c, Mint(c, rootKey, d), rootSig), Discharges(c, rootSig, d.conditions),
                                  Discharges(c, rootSig, conds[1..]);
        assert all == [bound] + inner + rest;
    }
  }

  /** The indices a plan's tree uses are those of its discharges. */
  lemma {:induction false} PlanUses(c: Crypto, rootSig: bytes, conds: seq<Condition>, ds: seq<Macaroon>, k: nat)
    requires DistinctIds(ds) && Supplied(c, rootSig, conds, ds) && k < |ds|
    ensures Uses(TreeOf(conds, ds))[k] == multiset(Discharges(c, rootSig, conds))[ds[k]]
    decreases conds
  {
    hide FirstWithId, Mint, Bind, Supplied, DistinctIds;
    if conds != [] {
      SuppliedParts(c, rootSig, conds, ds);
      PlanUses(c, rootSig, conds[1..], ds, k);
      match conds[0] {
        case First(_) =>
          assert Discharges(c, rootSig, conds) == Discharges(c, rootSig, conds[1..]);
        case Third(rootKey, _, _, d) =>
          var bound := Bind(c, Mint(c, rootKey, d), rootSig);
          BoundId(c, rootKey, d, rootSig);
          var inner, rest := Discharges(c, rootSig, d.conditions), Discharges(c, rootSig, conds[1..]);
          assert Discharges(c, rootSig, conds) == [bound] + inner + rest;
          CountOfThree(bound, inner, rest, ds[k]);
          FindsMinted(ds, bound);
          PlanUses(c, rootSig, d.conditions, ds, k);
          SameIndex(ds, k, FirstWithId(ds, bound.id));
      }
    }
  }

  lemma CountOfThree(b: Macaroon, inner: seq<Macaroon>, rest: seq<Macaroon>, x: Macaroon)
    ensures multiset([b] + inner + rest)[x] == (if b == x then 1 else 0) + multiset(inner)[x] + multiset(rest)[x]
  {
    assert multiset([b] + inner + rest) == multiset{b} + multiset(inner) + multiset(rest);
  }

  lemma BoundId(c: Crypto, rootKey: bytes, d: Plan, rootSig: bytes)
    ensures Bind(c, Mint(c, rootKey, d), rootSig).id == d.id
  {
    MintedId(c, rootKey, d);
  }

  lemma SameIndex(ds: seq<Macaroon>, i: nat, j: nat)
    requires DistinctIds(ds) && i < |ds| && j < |ds|
    ensures ds[i] == ds[j] <==> i == j
  {
  }

  /** A macaroon minted by New and the two kinds of addCaveat, presented with the discharges its
      third parties mint, bound to its signature and in any order: Verify succeeds exactly when
      check accepts every first-party condition, however deeply the discharges nest. */
  lemma MintedMacaroonVerifies(c: Crypto, rootKey: bytes, p: Plan, check: bytes -> bool, ds: seq<Macaroon>)
    requires Sound(c) && NoncesOk(p.conditions)
    requires multiset(ds) == multiset(Discharges(c, Mint(c, rootKey, p).sig, p.conditions))
    requires DistinctIds(ds)
    ensures Accepts(c, Mint(c, rootKey, p), rootKey, check, ds) <==> AllAccepted(check, p.conditions)
  {
    hide Sound, Mint, Proves, Answers, Accepts;
    var m := Mint(c, rootKey, p);
    var key, t := c.makeKey(rootKey), TreeOf(p.conditions, ds);
    forall d <- Discharges(c, m.sig, p.conditions) ensures d in ds {
      assert d in multiset(ds);
    }
    MintedId(c, rootKey, p);
    PlanAnswers(c, c.hash(key, p.id), m.sig, check, p.conditions, ds);
    PlanProves(c, m, key, check, ds, t);
    AcceptsExactly(c, m, rootKey, check, ds);
    assert UsesAllOnce(t, |ds|) by {
      forall k | 0 <= k < |ds| ensures Uses(t)[k] == 1 {
        PlanUses(c, m.sig, p.conditions, ds, k);
        OnceByDistinctIds(ds, k);
      }
    }
    if Accepts(c, m, rootKey, check, ds) {
      var u :| Proves(c, m, key, m.sig, check, ds, u) && UsesAllOnce(u, |ds|);
      ProvenConditions(c, m, key, m.sig, check, ds, u);
      PlanAccepted(c, c.hash(key, p.id), m.sig, check, p.conditions, ds, u);
    }
  }

  lemma PlanProves(c: Crypto, m: Macaroon, key: bytes, check: bytes -> bool, ds: seq<Macaroon>, t: Tree)
    requires Chain(c, m.caveats, c.hash(key, m.id)) == m.sig
    ensures Proves(c, m, key, m.sig, check, ds, t) <==> Answers(c, m.caveats, c.hash(key, m.id), m.sig, check, ds, t)
  {
    hide Answers, Chain;
  }

  lemma ProvenConditions(c: Crypto, m: Macaroon, key: bytes, rootSig: bytes, check: bytes -> bool, ds: seq<Macaroon>, t: Tree)
    requires Proves(c, m, key, rootSig, check, ds, t)
    ensures Answers(c, m.caveats, c.hash(key, m.id), rootSig, check, ds, t)
  {
    hide Answers;
  }

  /** Whatever tree answers a plan's caveats, it is the plan's own. */
  lemma {:induction false} PlanAccepted(c: Crypto, sig: bytes, rootSig: bytes, check: bytes -> bool,
                                        conds: seq<Condition>, ds: seq<Macaroon>, t: Tree)
    requires Sound(c) && NoncesOk(conds) && DistinctIds(ds) && Supplied(c, rootSig, conds, ds)
    requires Answers(c, CaveatsOf(c, sig, conds), sig, rootSig, check, ds, t)
    ensures AllAccepted(check, conds)
    decreases conds
  {
    hide KeyedHash2, Encrypt, Decrypt, FirstWithId, Sound, Mint, BindForRequest;
    if conds != [] {
      var cav := CaveatOf(c, sig, conds[0]);
      var after := KeyedHash2(c, sig, cav.vid, cav.id);
      var cavs := CaveatsOf(c, sig, conds);
      assert cavs[0] == cav && cavs[1..] == CaveatsOf(c, after, conds[1..]);
      match conds[0] {
        case First(id) =>
          PlanAccepted(c, after, rootSig, check, conds[1..], ds, t);
        case Third(rootKey, nonce, location, d) =>
          SealedKey(c, sig, rootKey, nonce);
          PlanAccepted(c, after, rootSig, check, conds[1..], ds, t.next);
          var bound := Bind(c, Mint(c, rootKey, d), rootSig);
          MintedId(c, rootKey, d);
          SuppliedParts(c, rootSig, conds, ds);
          assert bound.id == d.id;
          FindsMinted(ds, bound);
          PlanAccepted(c, c.hash(c.makeKey(rootKey), d.id), rootSig, check, d.conditions, ds, t.below);
      }
    }
  }

  lemma {:induction false} OnceByDistinctIds(ds: seq<Macaroon>, k: nat)
    requires DistinctIds(ds) && k < |ds|
    ensures multiset(ds)[ds[k]] == 1
  {
    var a, b := ds[..k], ds[k + 1..];
    assert ds == a + [ds[k]] + b;
    assert ds[k] !in a && ds[k] !in b;
    assert multiset(ds) == multiset(a) + multiset{ds[k]} + multiset(b);
  }
}
