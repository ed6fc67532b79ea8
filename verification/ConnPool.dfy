/**
 The connection pool (redis.v2/pool.go). Its list is the idle connections followed by those in use,
 counted by idleNum; the methods are the stretches of code under the pool's lock, and the numbers of
 connections and goroutines they leave are a state machine of their own.
 */
module ConnPool {
  import opened Base

  class Conn {
    var inUse: bool
    var usedAt: int
    var pooled: bool      // elem is not nil
    const closes: bool    // whether closing it succeeds

    constructor (closes: bool)
      ensures !inUse && !pooled && this.closes == closes
    {
      inUse, usedAt, pooled := false, 0, false;
      this.closes := closes;
    }
  }

  /** What a Get comes to under one hold of the lock. */
  datatype Got = Closed | Blocked | NoConn | Conn(cn: Conn, isNew: bool)

  // ------------------------------------------------------------------ the pool in numbers

  /** Connections, and the goroutines asleep in Get or signalled but not running yet. */
  datatype Shape = Shape(idle: nat, used: nat, closed: bool, waiting: nat, woken: nat)

  /** The stretches of code under the lock: Get up to its wait, Get from its wait on, Put, Remove and Close. */
  datatype Event =
    | Enter(expires: bool, dialed: bool)
    | Resume(dialed: bool)
    | GiveBack
    | TakeOut
    | Stop

  predicate Enabled(s: Shape, e: Event)
  {
    match e
    case Enter(expires, _) => expires ==> s.idle > 0
    case Resume(_) => s.woken > 0
    case GiveBack => s.closed || s.used > 0
    case TakeOut => s.closed || s.used > 0
    case Stop => true
  }

  function Signalled(s: Shape): Shape
  {
    if s.waiting > 0 then s.(waiting := s.waiting - 1, woken := s.woken + 1) else s
  }

  /** From the wait loop of Get on. */
  function TakenOrWaiting(size: nat, s: Shape, dialed: bool): Shape
  {
    if s.idle + s.used >= size && s.idle == 0 then s.(waiting := s.waiting + 1)
    else if s.idle > 0 then s.(idle := s.idle - 1, used := s.used + 1)
    else if dialed then s.(used := s.used + 1)
    else s
  }

  function Step(size: nat, s: Shape, e: Event): Shape
    requires Enabled(s, e)
  {
    match e
    case Enter(expires, dialed) =>
      if s.closed then s
      else TakenOrWaiting(size, if expires then s.(idle := s.idle - 1) else s, dialed)
    case Resume(dialed) => TakenOrWaiting(size, s.(woken := s.woken - 1), dialed)
    case GiveBack => if s.closed then s else Signalled(s.(used := s.used - 1, idle := s.idle + 1))
    case TakeOut => if s.closed then s else Signalled(s.(used := s.used - 1))
    case Stop => if s.closed then s else s.(idle := 0, used := 0, closed := true)
  }

  predicate CanRun(size: nat, s: Shape, events: seq<Event>)
    decreases |events|
  {
    events == [] || (Enabled(s, events[0]) && CanRun(size, Step(size, s, events[0]), events[1..]))
  }

  function Run(size: nat, s: Shape, events: seq<Event>): Shape
    requires CanRun(size, s, events)
    decreases |events|
  {
    if events == [] then s else Run(size, Step(size, s, events[0]), events[1..])
  }

  const EMPTY := Shape(0, 0, false, 0, 0)

  /** Never more connections than the size, and no idle ones once the pool is closed. */
  predicate ShapeOk(size: nat, s: Shape)
  {
    s.idle + s.used <= size && (s.closed ==> s.idle == 0)
  }

  lemma {:induction false} RunKeepsShape(size: nat, s: Shape, events: seq<Event>)
    requires CanRun(size, s, events) && ShapeOk(size, s)
    ensures ShapeOk(size, Run(size, s, events))
    decreases |events|
  {
    if events != [] {
      RunKeepsShape(size, Step(size, s, events[0]), events[1..]);
    }
  }

  // ------------------------------------------------------------------ after Close

  /** The goroutines that run on from their wait and whose dial succeeds. */
  function Dials(events: seq<Event>): nat
  {
    if events == [] then 0 else (if events[0] == Resume(true) then 1 else 0) + Dials(events[1..])
  }

  /** Get does not look at closed again after its wait: what a closed pool holds is what such goroutines
      have dialed since, up to the size. */
  lemma {:induction false} ClosedPoolHolds(size: nat, s: Shape, events: seq<Event>)
    requires CanRun(size, s, events) && s.closed && ShapeOk(size, s)
    ensures Run(size, s, events).closed && Run(size, s, events).used == Min(size, s.used + Dials(events))
    ensures Dials(events) <= s.woken
    decreases |events|
  {
    if events != [] {
      ClosedPoolHolds(size, Step(size, s, events[0]), events[1..]);
    }
  }

  ghost predicate StaysEmpty(size: nat, s: Shape)
  {
    forall events | CanRun(size, s, events) :: Run(size, s, events).used == 0
  }

  /** A pool that has been closed stays empty in every run exactly when Close found no signalled goroutine
      still to run, or the pool has no room at all. */
  lemma ClosedStaysEmptyExactly(size: nat, s: Shape)
    requires s.closed && s.idle == s.used == 0
    ensures StaysEmpty(size, s) <==> s.woken == 0 || size == 0
  {
    if s.woken == 0 || size == 0 {
      forall events | CanRun(size, s, events)
        ensures Run(size, s, events).used == 0
      {
        ClosedPoolHolds(size, s, events);
      }
    } else {
      var events := [Resume(true)];
      assert events[1..] == [];
      var t := Step(size, s, events[0]);
      assert Run(size, t, events[1..]) == t;
      assert CanRun(size, s, events) && Run(size, s, events) == t && t.used == 1;
      assert !StaysEmpty(size, s);
    }
  }

  /** The schedule: one Get has the only connection and another sleeps; the connection is removed, the pool
      closed, and then the sleeper runs on. */
  lemma LateConnection()
    ensures var events := [Enter(false, true), Enter(false, true), TakeOut, Stop, Resume(true)];
            CanRun(1, EMPTY, events) && Run(1, EMPTY, events) == Shape(0, 1, true, 0, 0)
  {
    hide Run, CanRun, Step;
    var e, none: seq<Event> := Enter(false, true), [];
    var s1, s2, s3, s4 := Shape(0, 1, false, 0, 0), Shape(0, 1, false, 1, 0), Shape(0, 0, false, 0, 1), Shape(0, 0, true, 0, 1);
    FiveSteps();
    NoSteps(1, Shape(0, 1, true, 0, 0));
    OneStep(1, s4, Resume(true), none);
    OneStep(1, s3, Stop, [Resume(true)] + none);
    OneStep(1, s2, TakeOut, [Stop] + ([Resume(true)] + none));
    OneStep(1, s1, e, [TakeOut] + ([Stop] + ([Resume(true)] + none)));
    OneStep(1, EMPTY, e, [e] + ([TakeOut] + ([Stop] + ([Resume(true)] + none))));
    assert [e] + ([e] + ([TakeOut] + ([Stop] + ([Resume(true)] + none)))) == [e, e, TakeOut, Stop, Resume(true)];
  }

  lemma FiveSteps()
    ensures Step(1, EMPTY, Enter(false, true)) == Shape(0, 1, false, 0, 0)
    ensures Step(1, Shape(0, 1, false, 0, 0), Enter(false, true)) == Shape(0, 1, false, 1, 0)
    ensures Step(1, Shape(0, 1, false, 1, 0), TakeOut) == Shape(0, 0, false, 0, 1)
    ensures Step(1, Shape(0, 0, false, 0, 1), Stop) == Shape(0, 0, true, 0, 1)
    ensures Step(1, Shape(0, 0, true, 0, 1), Resume(true)) == Shape(0, 1, true, 0, 0)
  {
  }

  lemma NoSteps(size: nat, s: Shape)
    ensures CanRun(size, s, []) && Run(size, s, []) == s
  {
  }

  lemma OneStep(size: nat, s: Shape, e: Event, rest: seq<Event>)
    requires Enabled(s, e) && CanRun(size, Step(size, s, e), rest)
    ensures CanRun(size, s, [e] + rest) && Run(size, s, [e] + rest) == Run(size, Step(size, s, e), rest)
  {
    assert ([e] + rest)[1..] == rest;
  }

  // ------------------------------------------------------------------ sleepers

  /** Nobody sleeps while there is room that no signalled goroutine is on its way to. */
  predicate NoneOversleeps(size: nat, s: Shape)
  {
    s.waiting > 0 ==> size - s.used <= s.woken
  }

  /** The steps that strand a sleeper: a signalled goroutine fails to dial and no other one is on its way to
      the room it leaves, or the pool is closed while there are fewer signalled goroutines than its size. */
  predicate Strands(size: nat, s: Shape, e: Event)
  {
    match e
    case Resume(dialed) => !dialed && s.idle == 0 && s.used < size && s.waiting > 0 && s.woken == size - s.used
    case Stop => !s.closed && s.waiting > 0 && s.woken < size
    case _ => false
  }

  lemma StrandsExactly(size: nat, s: Shape, e: Event)
    requires Enabled(s, e) && ShapeOk(size, s) && NoneOversleeps(size, s)
    ensures NoneOversleeps(size, Step(size, s, e)) <==> !Strands(size, s, e)
  {
  }

  predicate NoneStrands(size: nat, s: Shape, events: seq<Event>)
    requires CanRun(size, s, events)
    decreases |events|
  {
    events == [] || (!Strands(size, s, events[0]) && NoneStrands(size, Step(size, s, events[0]), events[1..]))
  }

  /** In a run without such a step nobody ever oversleeps. */
  lemma {:induction false} RunRests(size: nat, s: Shape, events: seq<Event>)
    requires CanRun(size, s, events) && ShapeOk(size, s) && NoneOversleeps(size, s)
    requires NoneStrands(size, s, events)
    ensures NoneOversleeps(size, Run(size, s, events))
    decreases |events|
  {
    if events != [] {
      StrandsExactly(size, s, events[0]);
      RunRests(size, Step(size, s, events[0]), events[1..]);
    }
  }

  /** Once the pool is closed nobody is signalled: who sleeps then sleeps for ever. */
  lemma {:induction false} ClosedSleepersStay(size: nat, s: Shape, events: seq<Event>)
    requires CanRun(size, s, events) && s.closed
    ensures Run(size, s, events).waiting >= s.waiting
    decreases |events|
  {
    if events != [] {
      ClosedSleepersStay(size, Step(size, s, events[0]), events[1..]);
    }
  }

  // ------------------------------------------------------------------ expiry

  /** Unused for too long, by the times the idle connections were last used. */
  predicate Stale(time: int, now: int, timeout: int)
  {
    timeout > 0 && now - time > timeout
  }

  function FirstStale(times: seq<int>, now: int, timeout: int): (k: nat)
    ensures k <= |times| && (k < |times| ==> Stale(times[k], now, timeout))
    ensures forall j :: 0 <= j < k ==> !Stale(times[j], now, timeout)
  {
    if times == [] || Stale(times[0], now, timeout) then 0 else 1 + FirstStale(times[1..], now, timeout)
  }

  /** What one walk of Get leaves: taking a connection out of the list ends the walk. */
  function Swept(times: seq<int>, now: int, timeout: int): seq<int>
  {
    var k := FirstStale(times, now, timeout);
    if k < |times| then times[..k] + times[k + 1..] else times
  }

  function CountStale(times: seq<int>, now: int, timeout: int): nat
  {
    if times == [] then 0 else (if Stale(times[0], now, timeout) then 1 else 0) + CountStale(times[1..], now, timeout)
  }

  lemma {:induction false} SweptDropsOne(times: seq<int>, now: int, timeout: int)
    ensures CountStale(Swept(times, now, timeout), now, timeout)
         == if CountStale(times, now, timeout) == 0 then 0 else CountStale(times, now, timeout) - 1
  {
    if times != [] {
      if Stale(times[0], now, timeout) {
        assert Swept(times, now, timeout) == times[1..];
      } else {
        hide Swept, FirstStale;
        SweptDropsOne(times[1..], now, timeout);
        SweptRest(times, now, timeout);
        var rest := Swept(times[1..], now, timeout);
        assert ([times[0]] + rest)[1..] == rest;
      }
    }
  }

  lemma SweptRest(times: seq<int>, now: int, timeout: int)
    requires times != [] && !Stale(times[0], now, timeout)
    ensures Swept(times, now, timeout) == [times[0]] + Swept(times[1..], now, timeout)
  {
    var k, rest := FirstStale(times[1..], now, timeout), times[1..];
    assert FirstStale(times, now, timeout) == 1 + k;
    if k < |rest| {
      assert times[..1 + k] + times[k + 2..] == [times[0]] + (rest[..k] + rest[k + 1..]);
    }
  }

  lemma {:induction false} NoneStale(times: seq<int>, now: int, timeout: int)
    ensures CountStale(times, now, timeout) == 0 <==> forall i :: 0 <= i < |times| ==> !Stale(times[i], now, timeout)
  {
    if times != [] {
      NoneStale(times[1..], now, timeout);
      assert forall i :: 1 <= i < |times| ==> times[i] == times[1..][i - 1];
    }
  }

  /** After a Get every expired idle connection is gone exactly when none expires or at most one had. */
  lemma SweepIsCleanExactly(times: seq<int>, now: int, timeout: int)
    ensures var left := Swept(times, now, timeout);
            (forall i :: 0 <= i < |left| ==> !Stale(left[i], now, timeout))
            <==> timeout <= 0 || CountStale(times, now, timeout) <= 1
  {
    SweptDropsOne(times, now, timeout);
    NoneStale(Swept(times, now, timeout), now, timeout);
    NoneStale(times, now, timeout);
  }

  /** And the connection that is then handed out is expired exactly when the first two were. */
  lemma HandsOutStaleExactly(times: seq<int>, now: int, timeout: int)
    ensures var left := Swept(times, now, timeout);
            left != [] && Stale(left[0], now, timeout)
            <==> |times| >= 2 && Stale(times[0], now, timeout) && Stale(times[1], now, timeout)
  {
    var k := FirstStale(times, now, timeout);
    if k < |times| {
      var left := times[..k] + times[k + 1..];
      assert left == Swept(times, now, timeout);
      if left != [] {
        assert left[0] == if k == 0 then times[1] else times[0];
      }
    }
  }

  /** The input: of two connections unused for ten seconds with a limit of five, one is still handed out. */
  lemma TwoExpired()
    ensures Swept([0, 0], 10, 5) == [0] && Stale(0, 10, 5)
  {
    assert FirstStale([0, 0], 10, 5) == 0;
  }

  lemma FirstStaleIs(times: seq<int>, now: int, timeout: int, k: nat)
    requires k <= |times| && (k < |times| ==> Stale(times[k], now, timeout))
    requires forall j :: 0 <= j < k ==> !Stale(times[j], now, timeout)
    ensures FirstStale(times, now, timeout) == k
  {
  }

  // ------------------------------------------------------------------ lists of connections

  predicate Distinct(s: seq<Conn>)
  {
    forall i, j :: 0 <= i < j < |s| ==> s[i] != s[j]
  }

  /** The list without an element. */
  function Without(s: seq<Conn>, cn: Conn): (r: seq<Conn>)
  {
    if s == [] then []
    else if s[0] == cn then s[1..]
    else [s[0]] + Without(s[1..], cn)
  }

  lemma {:induction false} WithoutAt(s: seq<Conn>, k: nat)
    requires Distinct(s) && k < |s|
    ensures Without(s, s[k]) == s[..k] + s[k + 1..]
  {
    if k == 0 {
      assert s[..0] + s[1..] == s[1..];
    } else {
      assert s[0] != s[k];
      WithoutAt(s[1..], k - 1);
      assert s[1..][k - 1] == s[k];
      assert s[..k] + s[k + 1..] == [s[0]] + (s[1..][..k - 1] + s[1..][k..]);
    }
  }

  lemma RemovedAt(s: seq<Conn>, k: nat)
    requires Distinct(s) && k < |s|
    ensures var r := s[..k] + s[k + 1..]; Distinct(r) && |r| == |s| - 1 && s[k] !in r && forall x :: x in r <==> x in s && x != s[k]
  {
    var r := s[..k] + s[k + 1..];
    assert forall i :: 0 <= i < |r| ==> r[i] == s[if i < k then i else i + 1];
    forall x | x in s && x != s[k]
      ensures x in r
    {
      var i :| 0 <= i < |s| && s[i] == x;
      assert r[if i < k then i else i - 1] == x;
    }
  }

  ghost function PlaceOf(s: seq<Conn>, cn: Conn): (k: nat)
    requires cn in s
    ensures k < |s| && s[k] == cn
  {
    var k: nat :| k < |s| && s[k] == cn;
    k
  }

  /** The places after taking one out. */
  lemma TakenOut(s: seq<Conn>, k: nat, r: seq<Conn>)
    requires k < |s| && r == s[..k] + s[k + 1..]
    ensures |r| == |s| - 1
    ensures forall i :: 0 <= i < k ==> r[i] == s[i]
    ensures forall i :: k <= i < |r| ==> r[i] == s[i + 1]
  {
  }

  lemma FirstIsDistinct(cn: Conn, rest: seq<Conn>)
    requires Distinct(rest) && cn !in rest
    ensures Distinct([cn] + rest)
  {
  }

  class Pool {
    const poolSize: nat
    const idleTimeout: int
    var conns: seq<Conn>
    var idleNum: nat
    var closed: bool

    // Goroutines asleep in Get, and those signalled that have not run yet.
    ghost var waiting: nat
    ghost var woken: nat

    /** The list is idle connections and then those in use, idleNum counts the former, and there are never
        more than the pool's size. */
    ghost predicate Listed()
      reads this, conns
    {
      && Distinct(conns) && idleNum <= |conns|
      && (forall i :: 0 <= i < |conns| ==> conns[i].pooled && (conns[i].inUse <==> i >= idleNum))
      && |conns| <= poolSize
    }

    /** And a closed pool has none that are idle. */
    ghost predicate Valid()
      reads this, conns
    {
      Listed() && (closed ==> idleNum == 0)
    }

    ghost function AsShape(): Shape
      requires idleNum <= |conns|
      reads this
    {
      Shape(idleNum, |conns| - idleNum, closed, waiting, woken)
    }

    /** When the idle connections were last used. */
    ghost function IdleTimes(): (times: seq<int>)
      requires idleNum <= |conns|
      reads this, conns
      ensures |times| == idleNum
    {
      seq(idleNum, i requires 0 <= i < idleNum <= |conns| reads this, conns => conns[i].usedAt)
    }

    /** The place of the first expired idle connection. */
    ghost function Oldest(now: int): (k: nat)
      requires idleNum <= |conns|
      reads this, conns
      ensures k <= idleNum
    {
      FirstStale(IdleTimes(), now, idleTimeout)
    }

    /** The list without its first expired idle connection. */
    ghost function Kept(now: int): seq<Conn>
      requires idleNum <= |conns|
      reads this, conns
    {
      var k := Oldest(now);
      if k < idleNum then conns[..k] + conns[k + 1..] else conns
    }

    /** The two idle connections at the front have both expired. */
    ghost predicate TwoStale(now: int)
      requires idleNum <= |conns|
      reads this, conns
    {
      idleNum >= 2 && Stale(IdleTimes()[0], now, idleTimeout) && Stale(IdleTimes()[1], now, idleTimeout)
    }

    lemma FirstTime()
      requires idleNum <= |conns|
      ensures idleNum > 0 ==> IdleTimes()[0] == conns[0].usedAt
    {
    }

    constructor (poolSize: nat, idleTimeout: int)
      ensures Valid() && conns == [] && AsShape() == Shape(0, 0, false, 0, 0)
      ensures this.poolSize == poolSize && this.idleTimeout == idleTimeout
    {
      this.poolSize, this.idleTimeout := poolSize, idleTimeout;
      conns, idleNum, closed := [], 0, false;
      waiting, woken := 0, 0;
    }

    /** remove: of a connection in the list. */
    method Drop(cn: Conn)
      requires Listed() && cn in conns
      modifies this`conns, this`idleNum, cn`pooled
      ensures Listed() && !cn.pooled && conns == Without(old(conns), cn)
      ensures cn !in conns && |conns| == old(|conns|) - 1 && forall x :: x in conns <==> x in old(conns) && x != cn
      ensures idleNum == if cn.inUse then old(idleNum) else old(idleNum) - 1
    {
      hide Without, Distinct;
      ghost var k := PlaceOf(conns, cn);
      WithoutAt(conns, k);
      RemovedAt(conns, k);
      TakenOut(conns, k, Without(conns, cn));
      conns := Without(conns, cn);
      cn.pooled := false;
      if !cn.inUse {
        idleNum := idleNum - 1;
      }
    }

    /** An idle connection is dropped by its place. */
    method DropAt(i: nat)
      requires Valid() && i < idleNum
      modifies this`conns, this`idleNum, conns
      ensures Valid() && conns == old(conns)[..i] + old(conns)[i + 1..] && idleNum == old(idleNum) - 1
      ensures forall cn <- old(conns) :: cn.inUse == old(cn.inUse) && cn.usedAt == old(cn.usedAt)
      ensures IdleTimes() == old(IdleTimes())[..i] + old(IdleTimes())[i + 1..]
    {
      hide Distinct, Without;
      WithoutAt(conns, i);
      TakenOut(conns, i, Without(conns, conns[i]));
      Drop(conns[i]);
    }

    /** The start of Get: from the front, the first idle connection unused for too long is dropped. Taking it
        out of the list ends the walk, so no other one is. */
    method Expire(now: int)
      requires Valid()
      modifies this`conns, this`idleNum, conns
      ensures Valid() && conns == old(Kept(now))
      ensures idleNum == if old(Oldest(now)) < old(idleNum) then old(idleNum) - 1 else old(idleNum)
      ensures forall cn <- old(conns) :: cn.inUse == old(cn.inUse) && cn.usedAt == old(cn.usedAt)
      ensures |conns| - idleNum == old(|conns| - idleNum) && forall cn :: cn in conns ==> cn in old(conns)
      ensures IdleTimes() == Swept(old(IdleTimes()), now, idleTimeout)
      ensures forall cn <- old(conns) :: cn !in conns ==> !old(cn.inUse) && 0 < idleTimeout < now - old(cn.usedAt)
      ensures (forall cn <- conns :: cn in old(conns))
              && (conns == old(conns) <==> forall cn <- old(conns) :: old(cn.inUse) || !(0 < idleTimeout < now - old(cn.usedAt)))
    {
      hide Distinct, FirstStale;
      ghost var times := IdleTimes();
      if idleTimeout <= 0 {
        FirstStaleIs(times, now, idleTimeout, idleNum);
        return;
      }
      var i := 0;
      while i < |conns|
        invariant 0 <= i <= |conns| && i <= idleNum
        invariant forall j :: 0 <= j < i ==> !Stale(times[j], now, idleTimeout)
      {
        var cn := conns[i];
        if cn.inUse {
          break;
        }
        if now - cn.usedAt > idleTimeout {
          FirstStaleIs(times, now, idleTimeout, i);
          DropAt(i);
          return;
        }
        i := i + 1;
      }
      FirstStaleIs(times, now, idleTimeout, idleNum);
      assert forall j :: 0 <= j < idleNum ==> times[j] == conns[j].usedAt && !Stale(times[j], now, idleTimeout);
    }

    /** Get up to where it either waits or returns; dialed says whether a new connection can be opened. */
    method Get(now: int, dialed: bool) returns (got: Got)
      requires Valid()
      modifies this, conns
      ensures Valid() && AsShape() == Step(poolSize, old(AsShape()), Enter(old(Oldest(now)) < old(idleNum), dialed))
      ensures got == Closed <==> old(closed)
      ensures got == Closed ==> conns == old(conns)
      ensures got.Blocked? || got.NoConn? ==> conns == old(Kept(now)) && forall cn <- conns :: cn.inUse
      ensures got.Conn? ==> got.cn.inUse
      ensures got.Conn? && !got.isNew ==>
                && old(Kept(now)) != [] && got.cn == old(Kept(now))[0] && !old(got.cn.inUse)
                && conns == old(Kept(now))[1..] + [got.cn]
      ensures got.Conn? && !got.isNew ==>
                (Stale(got.cn.usedAt, now, idleTimeout) <==> old(TwoStale(now)))
      ensures got.Conn? && got.isNew ==> fresh(got.cn) && conns == old(Kept(now)) + [got.cn]
    {
      hide Distinct, Kept, Oldest, FirstStale, Swept, IdleTimes, TakenOrWaiting, Stale;
      ghost var times := IdleTimes();
      if closed {
        return Closed;
      }
      Expire(now);
      assert forall i :: 0 <= i < |conns| ==> conns[i] in old(conns);
      HandsOutStaleExactly(times, now, idleTimeout);
      FirstTime();
      got := TakeOrWait(dialed);
    }

    /** The rest of Get, where it also goes on when it is woken; closed is not looked at again. */
    method TakeOrWait(dialed: bool) returns (got: Got)
      requires Valid()
      modifies this, conns
      ensures Valid() && AsShape() == TakenOrWaiting(poolSize, old(AsShape()), dialed) && got != Closed
      ensures got.Blocked? <==> old(|conns|) >= poolSize && old(idleNum) == 0
      ensures got.NoConn? <==> old(|conns|) < poolSize && old(idleNum) == 0 && !dialed
      ensures forall cn <- old(conns) :: cn.usedAt == old(cn.usedAt)
      ensures got.Blocked? || got.NoConn? ==> conns == old(conns) && forall cn <- conns :: cn.inUse
      ensures got.Conn? ==> got.cn.inUse
      ensures got.Conn? && !got.isNew ==>
                |old(conns)| > 0 && got.cn == old(conns)[0] && !old(got.cn.inUse) && conns == old(conns)[1..] + [got.cn]
      ensures got.Conn? && got.isNew ==> fresh(got.cn) && conns == old(conns) + [got.cn]
    {
      if |conns| >= poolSize && idleNum == 0 {
        waiting := waiting + 1;
        return Blocked;
      }
      ghost var before := conns;
      if idleNum > 0 {
        var cn := conns[0];
        // The source panics here if cn is in use.
        assert !cn.inUse;
        cn.inUse := true;
        conns := conns[1..] + [cn];
        idleNum := idleNum - 1;
        assert forall i :: 0 <= i < |conns| - 1 ==> conns[i] == before[i + 1];
        return Conn(cn, false);
      }
      // The source panics if it comes past this branch.
      assert |conns| < poolSize;
      if !dialed {
        return NoConn;
      }
      var closes: bool := *;
      var cn := new Conn(closes);
      cn.inUse := true;
      cn.pooled := true;
      conns := conns + [cn];
      return Conn(cn, true);
    }

    /** A signalled goroutine runs on from its wait, also when the pool has been closed meanwhile. */
    method Wake(dialed: bool) returns (got: Got)
      requires Valid() && woken > 0
      modifies this, conns
      ensures Valid() && AsShape() == Step(poolSize, old(AsShape()), Resume(dialed)) && got != Closed
      ensures got.Blocked? || got.NoConn? ==> conns == old(conns)
      ensures got.Conn? ==> got.cn.inUse
      ensures got.Conn? && !got.isNew ==>
                |old(conns)| > 0 && got.cn == old(conns)[0] && !old(got.cn.inUse) && conns == old(conns)[1..] + [got.cn]
      ensures got.Conn? && got.isNew ==> fresh(got.cn) && conns == old(conns) + [got.cn]
    {
      woken := woken - 1;
      got := TakeOrWait(dialed);
    }

    ghost method Signal()
      requires idleNum <= |conns|
      modifies this`waiting, this`woken
      ensures AsShape() == Signalled(old(AsShape()))
    {
      if waiting > 0 {
        waiting := waiting - 1;
        woken := woken + 1;
      }
    }

    /** A connection in use becomes the first of the idle ones. */
    method MoveToFront(cn: Conn)
      requires Valid() && !closed && cn in conns && cn.inUse
      modifies this`conns, this`idleNum, cn`inUse
      ensures Valid() && conns == [cn] + Without(old(conns), cn) && idleNum == old(idleNum) + 1 && |conns| == old(|conns|)
    {
      hide Without, Distinct;
      ghost var k := PlaceOf(conns, cn);
      WithoutAt(conns, k);
      RemovedAt(conns, k);
      TakenOut(conns, k, Without(conns, cn));
      ghost var rest := Without(conns, cn);
      FirstIsDistinct(cn, rest);
      cn.inUse := false;
      conns := [cn] + Without(conns, cn);
      idleNum := idleNum + 1;
    }

    /** Put of a connection that was handed out; buffered is what its reader still holds. */
    method Put(cn: Conn, buffered: nat, now: int) returns (ok: bool)
      requires Valid() && (!closed ==> cn in conns && cn.inUse)
      modifies this, cn
      ensures Valid()
      ensures AsShape() == Step(poolSize, old(AsShape()), if buffered == 0 then GiveBack else TakeOut)
      ensures ok == if buffered == 0 then !closed else closed || cn.closes
      ensures closed ==> conns == old(conns)
      ensures !closed && buffered == 0 ==> conns == [cn] + Without(old(conns), cn)
      ensures !closed && buffered > 0 ==> conns == Without(old(conns), cn) && !cn.pooled
      ensures cn.usedAt == if buffered == 0 && idleTimeout > 0 then now else old(cn.usedAt)
    {
      if buffered != 0 {
        ok := Remove(cn);
        return;
      }
      if idleTimeout > 0 {
        cn.usedAt := now;
      }
      if closed {
        return false;
      }
      MoveToFront(cn);
      Signal();
      return true;
    }

    /** Remove; an error is that of closing the connection. */
    method Remove(cn: Conn) returns (ok: bool)
      requires Valid() && (!closed ==> cn in conns && cn.inUse)
      modifies this, cn`pooled
      ensures Valid() && AsShape() == Step(poolSize, old(AsShape()), TakeOut)
      ensures ok == (closed || cn.closes)
      ensures conns == if closed then old(conns) else Without(old(conns), cn)
      ensures !closed ==> !cn.pooled
    {
      if closed {
        return true;
      }
      Drop(cn);
      Signal();
      return cn.closes;
    }

    /** Close: nothing is left in the pool; an error is that of the last connection that failed to close. */
    method Close() returns (ok: bool)
      requires Valid()
      modifies this, conns
      ensures Valid() && AsShape() == Step(poolSize, old(AsShape()), Stop) && closed
      ensures !old(closed) ==> conns == [] && forall cn <- old(conns) :: !cn.pooled
      ensures ok == (old(closed) || forall cn <- old(conns) :: cn.closes)
    {
      if closed {
        return true;
      }
      closed := true;
      ok := true;
      while |conns| > 0
        invariant Listed() && closed
        invariant waiting == old(waiting) && woken == old(woken)
        invariant forall cn <- conns :: cn in old(conns)
        invariant forall cn <- old(conns) :: cn in conns || !cn.pooled
        invariant ok <==> forall cn <- old(conns) :: cn in conns || cn.closes
        decreases |conns|
      {
        var cn := conns[0];
        Drop(cn);
        ok := ok && cn.closes;
      }
    }
  }
}
