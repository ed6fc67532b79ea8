/**
 One topology synchronisation of mgo.v2/cluster.go: goroutines that share three maps under one
 mutex and spawn more goroutines.

 Each locked region, and each call on the cluster, is one atomic step of a goroutine; a run is
 any interleaving of such steps. What the network answers is fixed for the iteration. The main
 results hold at the end of every run: each reachable address was synced exactly once, and what
 was added, kept back and removed does not depend on the schedule.
 */
module ClusterSync {
  import opened Base

  type Name = nat      // an address as listed by a user or a server
  type Resolved = nat  // what it resolves to

  /** What a server that can be synced says of itself. */
  datatype Answer = Answer(master: bool, hosts: seq<Name>)

  /** The environment of one iteration: names outside resolve do not resolve, servers outside
      answers fail to sync. */
  datatype Net = Net(resolve: map<Name, Resolved>, answers: map<Resolved, Answer>, direct: bool)

  /** A goroutine, by the step it will take next. */
  datatype Task =
    | Starting(name: Name, byMaster: bool)  // resolve, then the first locked region
    | AddingPending(r: Resolved)            // found among notYetAdded: addServer with completeSync
    | Syncing(r: Resolved)                  // syncServer
    | Removing(r: Resolved)                 // syncServer failed: removeServer
    | Deciding(r: Resolved)                 // the second locked region
    | Adding(r: Resolved)                   // addServer with completeSync
    | Spawning(r: Resolved)                 // one goroutine for every host listed

  /** The shared variables, the cluster's servers with their master flags, and logs of what was
      done: synced and added count calls, spawned and decided remember them. */
  datatype State = State(
    tasks: seq<Task>,
    seen: set<Resolved>,
    notYetAdded: set<Resolved>,
    addIfFound: set<Resolved>,
    complete: bool,
    servers: map<Resolved, bool>,
    synced: multiset<Resolved>,
    added: multiset<Resolved>,
    decided: set<Resolved>,
    spawned: set<Resolved>,
    failed: set<Resolved>)

  // ------------------------------------------------------------------ steps

  /** addServer on the cluster's view: an unknown server is discarded by a partial sync. */
  function AddServer(servers: map<Resolved, bool>, r: Resolved, master: bool, complete: bool): map<Resolved, bool>
  {
    if r in servers || complete then servers[r := master] else servers
  }

  function RemoveServer(servers: map<Resolved, bool>, r: Resolved): map<Resolved, bool>
  {
    servers - {r}
  }

  function StartAll(hosts: seq<Name>, byMaster: bool): seq<Task>
  {
    if hosts == [] then [] else [Starting(hosts[0], byMaster)] + StartAll(hosts[1..], byMaster)
  }

  function Init(known: seq<Name>, servers: map<Resolved, bool>): State
  {
    State(StartAll(known, false), {}, {}, {}, false, servers, multiset{}, multiset{}, {}, {}, {})
  }

  predicate TaskOk(net: Net, t: Task)
  {
    t.AddingPending? || t.Deciding? || t.Adding? || t.Spawning? ==> t.r in net.answers
  }

  /** Whether the second locked region adds the server at once. */
  predicate AddsNow(net: Net, s: State, r: Resolved)
    requires r in net.answers
  {
    net.direct || net.answers[r].master || r in s.addIfFound
  }

  /** Whether a name that resolved to r, listed by a master, finds its server kept back. */
  predicate FindsPending(s: State, r: Resolved, byMaster: bool)
  {
    byMaster && r in s.notYetAdded
  }

  /** What the step of task t does to the shared variables and to the cluster. */
  function Effect(net: Net, s: State, t: Task): (e: State)
    requires TaskOk(net, t)
    ensures e.tasks == s.tasks
  {
    match t
    case Starting(name, byMaster) =>
      if name !in net.resolve then s
      else
        var r := net.resolve[name];
        if FindsPending(s, r, byMaster) then s.(notYetAdded := s.notYetAdded - {r})
        else s.(addIfFound := if byMaster then s.addIfFound + {r} else s.addIfFound, seen := s.seen + {r})
    case AddingPending(r) =>
      s.(servers := AddServer(s.servers, r, net.answers[r].master, true), added := s.added + multiset{r})
    case Syncing(r) => s.(synced := s.synced + multiset{r})
    case Removing(r) => s.(servers := RemoveServer(s.servers, r), failed := s.failed + {r})
    case Deciding(r) =>
      if AddsNow(net, s, r) then s.(decided := s.decided + {r}, complete := true)
      else s.(decided := s.decided + {r}, notYetAdded := s.notYetAdded + {r})
    case Adding(r) =>
      s.(servers := AddServer(s.servers, r, net.answers[r].master, true), added := s.added + multiset{r})
    case Spawning(r) => s.(spawned := s.spawned + {r})
  }

  /** The goroutines that go on after the step: none when it ends, itself at its next step, or the
      ones it spawns. Spawning all hosts in one step loses no interleaving, since a goroutine may
      wait before its first step. */
  function Next(net: Net, s: State, t: Task): seq<Task>
    requires TaskOk(net, t)
  {
    match t
    case Starting(name, byMaster) =>
      if name !in net.resolve then []
      else
        var r := net.resolve[name];
        if FindsPending(s, r, byMaster) then [AddingPending(r)]
        else if r in s.seen then []
        else [Syncing(r)]
    case AddingPending(r) => []
    case Syncing(r) => [if r in net.answers then Deciding(r) else Removing(r)]
    case Removing(r) => []
    case Deciding(r) => [if AddsNow(net, s, r) then Adding(r) else Spawning(r)]
    case Adding(r) => [Spawning(r)]
    case Spawning(r) => if net.direct then [] else StartAll(net.answers[r].hosts, net.answers[r].master)
  }

  /** The step goroutine i takes. */
  function Step(net: Net, s: State, i: nat): State
    requires i < |s.tasks| && TaskOk(net, s.tasks[i])
  {
    var t := s.tasks[i];
    Effect(net, s, t).(tasks := s.tasks[..i] + Next(net, s, t) + s.tasks[i + 1..])
  }

  /** A run: a schedule names the goroutine of every step. */
  ghost predicate Run(net: Net, s: State, schedule: seq<nat>, end: State)
    decreases |schedule|
  {
    if schedule == [] then s == end
    else
      && schedule[0] < |s.tasks|
      && TaskOk(net, s.tasks[schedule[0]])
      && Run(net, Step(net, s, schedule[0]), schedule[1..], end)
  }

  // ------------------------------------------------------------------ what the network determines

  /** A chain of names from a known one, each listed by the server the one before resolves to. */
  ghost predicate Chain(net: Net, known: seq<Name>, path: seq<Name>)
  {
    && path != [] && path[0] in known
    && (forall i :: 0 <= i < |path| ==> path[i] in net.resolve)
    && (forall i :: 0 <= i < |path| - 1 ==>
          Lists(net, net.resolve[path[i]], path[i + 1]))
  }

  predicate Lists(net: Net, r: Resolved, name: Name)
  {
    !net.direct && r in net.answers && name in net.answers[r].hosts
  }

  ghost predicate Reachable(net: Net, known: seq<Name>, r: Resolved)
  {
    exists path :: Chain(net, known, path) && net.resolve[path[|path| - 1]] == r
  }

  /** Some reachable server that is a master lists a name of r. */
  ghost predicate Listed(net: Net, known: seq<Name>, r: Resolved)
  {
    exists m, name :: ListedBy(net, known, m, name, r)
  }

  ghost predicate ListedBy(net: Net, known: seq<Name>, m: Resolved, name: Name, r: Resolved)
  {
    && Reachable(net, known, m) && Lists(net, m, name) && net.answers[m].master
    && name in net.resolve && net.resolve[name] == r
  }

  /** The servers a complete synchronisation adds. */
  ghost predicate ShouldAdd(net: Net, known: seq<Name>, r: Resolved)
  {
    && Reachable(net, known, r) && r in net.answers
    && (net.direct || net.answers[r].master || Listed(net, known, r))
  }

  /** Whether the synchronisation hears from a primary, or is direct and hears from anyone. */
  ghost predicate IsComplete(net: Net, known: seq<Name>)
  {
    exists r :: Reachable(net, known, r) && r in net.answers && (net.direct || net.answers[r].master)
  }

  /** A name is worth a goroutine: known, or listed by a reachable server. */
  ghost predicate Mentioned(net: Net, known: seq<Name>, name: Name, byMaster: bool)
  {
    || (!byMaster && name in known)
    || exists m :: MentionedBy(net, known, m, name, byMaster)
  }

  ghost predicate MentionedBy(net: Net, known: seq<Name>, m: Resolved, name: Name, byMaster: bool)
  {
    Reachable(net, known, m) && Lists(net, m, name) && net.answers[m].master == byMaster
  }

  lemma MentionedIsReachable(net: Net, known: seq<Name>, name: Name, byMaster: bool)
    requires Mentioned(net, known, name, byMaster) && name in net.resolve
    ensures Reachable(net, known, net.resolve[name])
    ensures byMaster ==> Listed(net, known, net.resolve[name])
  {
    if !byMaster && name in known {
      assert Chain(net, known, [name]);
      var path := [name];
      assert net.resolve[path[|path| - 1]] == net.resolve[name];
    } else {
      var m :| MentionedBy(net, known, m, name, byMaster);
      var path :| Chain(net, known, path) && net.resolve[path[|path| - 1]] == m;
      var longer := path + [name];
      assert forall i :: 0 <= i < |path| ==> longer[i] == path[i];
      assert Chain(net, known, longer);
      assert net.resolve[longer[|longer| - 1]] == net.resolve[name];
      if byMaster {
        assert ListedBy(net, known, m, name, net.resolve[name]);
      }
    }
  }

  // ------------------------------------------------------------------ what every step keeps

  /** How many goroutines are about to take step t. */
  function Count(s: State, t: Task): nat
  {
    multiset(s.tasks)[t]
  }

  function One(b: bool): nat
  {
    if b then 1 else 0
  }

  ghost predicate GoodTask(net: Net, known: seq<Name>, s: State, t: Task)
  {
    match t
    case Starting(name, byMaster) => Mentioned(net, known, name, byMaster)
    case AddingPending(r) => r in s.decided && ShouldAdd(net, known, r)
    case Syncing(r) => r in s.seen
    case Removing(r) => r in s.seen && r !in net.answers
    case Deciding(r) => r in s.seen && r in net.answers
    case Adding(r) => r in s.decided && ShouldAdd(net, known, r)
    case Spawning(r) => r in s.decided
  }

  /** The shared sets hold r only where the network justifies it. */
  ghost predicate SetsOk(net: Net, known: seq<Name>, s: State, r: Resolved)
  {
    && (r in s.seen ==> Reachable(net, known, r))
    && (r in s.addIfFound ==> Listed(net, known, r))
    && (r in s.decided ==> r in s.seen && r in net.answers && (net.direct || net.answers[r].master ==> s.complete))
    && (r in s.spawned ==> r in s.decided)
    && (r in s.notYetAdded ==> r in s.decided && !net.direct && !net.answers[r].master && r !in s.addIfFound)
    && (r in s.added ==> ShouldAdd(net, known, r))
    && (r in s.failed ==> r in s.seen && r !in net.answers)
  }

  /** A seen address has one goroutine or one trace at every stage of its life. */
  predicate CountsOk(net: Net, s: State, r: Resolved)
  {
    SyncCountsOk(net, s, r) && AddCountsOk(s, r)
  }

  /** Until its server is decided about. */
  predicate SyncCountsOk(net: Net, s: State, r: Resolved)
  {
    && Count(s, Syncing(r)) + s.synced[r] == One(r in s.seen)
    && (r in net.answers ==>
          Count(s, Syncing(r)) + Count(s, Deciding(r)) + One(r in s.decided) == One(r in s.seen))
    && (r in s.seen && r !in net.answers ==> Count(s, Syncing(r)) > 0 || Count(s, Removing(r)) > 0 || r in s.failed)
  }

  /** And after that. */
  predicate AddCountsOk(s: State, r: Resolved)
  {
    && Count(s, Adding(r)) + Count(s, AddingPending(r)) + s.added[r] + One(r in s.notYetAdded) == One(r in s.decided)
    && Count(s, Adding(r)) + Count(s, Spawning(r)) + One(r in s.spawned) == One(r in s.decided)
  }

  /** The cluster: what was there and did not fail, and what was added. */
  predicate ServerOk(net: Net, before: map<Resolved, bool>, s: State, r: Resolved)
  {
    if r in s.added then r in net.answers && r in s.servers && s.servers[r] == net.answers[r].master
    else if r in before && r !in s.failed then r in s.servers && s.servers[r] == before[r]
    else r !in s.servers
  }

  /** A master's list reached r: it is marked, taken from notYetAdded, or added. */
  predicate Marked(s: State, r: Resolved)
  {
    r in s.addIfFound || Count(s, AddingPending(r)) > 0 || r in s.added
  }

  /** A name that was handed to a goroutine has been looked at, unless it still waits to start. */
  predicate Covered(net: Net, s: State, name: Name, byMaster: bool)
  {
    name in net.resolve ==>
      || Count(s, Starting(name, byMaster)) > 0
      || (net.resolve[name] in s.seen && (byMaster ==> Marked(s, net.resolve[name])))
  }

  ghost predicate Inv(net: Net, known: seq<Name>, before: map<Resolved, bool>, s: State)
  {
    && (forall t <- s.tasks :: GoodTask(net, known, s, t))
    && (forall r :: SetsOk(net, known, s, r))
    && (forall r :: CountsOk(net, s, r))
    && (forall r :: ServerOk(net, before, s, r))
    && (forall name <- known :: Covered(net, s, name, false))
    && (forall r, name :: r in s.spawned && Lists(net, r, name) ==> Covered(net, s, name, net.answers[r].master))
    && (s.complete ==> IsComplete(net, known))
  }

  lemma {:induction false} StartAllCount(hosts: seq<Name>, byMaster: bool, t: Task)
    ensures multiset(StartAll(hosts, byMaster))[t] > 0 <==> t.Starting? && t.byMaster == byMaster && t.name in hosts
    ensures t in StartAll(hosts, byMaster) <==> t.Starting? && t.byMaster == byMaster && t.name in hosts
  {
    if hosts != [] {
      StartAllCount(hosts[1..], byMaster, t);
      var ts := StartAll(hosts[1..], byMaster);
      assert multiset([Starting(hosts[0], byMaster)] + ts) == multiset{Starting(hosts[0], byMaster)} + multiset(ts);
    }
  }

  /** A step takes its own task and leaves those of Next. */
  lemma CountStep(net: Net, s: State, i: nat, x: Task)
    requires i < |s.tasks| && TaskOk(net, s.tasks[i])
    ensures Count(s, s.tasks[i]) > 0
    ensures Count(Step(net, s, i), x) == Count(s, x) - One(x == s.tasks[i]) + multiset(Next(net, s, s.tasks[i]))[x]
  {
    hide Next, Effect;
    var a, b, next := s.tasks[..i], s.tasks[i + 1..], Next(net, s, s.tasks[i]);
    assert s.tasks == a + [s.tasks[i]] + b;
    assert multiset(a + next + b) == multiset(a) + multiset(next) + multiset(b);
  }

  /** How the goroutines for r change in a step, stage by stage. */
  lemma CountStages(net: Net, s: State, i: nat, r: Resolved)
    requires i < |s.tasks| && TaskOk(net, s.tasks[i])
    ensures var s', t := Step(net, s, i), s.tasks[i];
            var next := Next(net, s, t);
            && Count(s, t) > 0
            && Count(s', Syncing(r)) == Count(s, Syncing(r)) - One(t == Syncing(r)) + One(next == [Syncing(r)])
            && Count(s', Removing(r)) == Count(s, Removing(r)) - One(t == Removing(r)) + One(next == [Removing(r)])
            && Count(s', Deciding(r)) == Count(s, Deciding(r)) - One(t == Deciding(r)) + One(next == [Deciding(r)])
            && Count(s', Adding(r)) == Count(s, Adding(r)) - One(t == Adding(r)) + One(next == [Adding(r)])
            && Count(s', Spawning(r)) == Count(s, Spawning(r)) - One(t == Spawning(r)) + One(next == [Spawning(r)])
            && Count(s', AddingPending(r))
               == Count(s, AddingPending(r)) - One(t == AddingPending(r)) + One(next == [AddingPending(r)])
  {
    var t := s.tasks[i];
    var stages := {Syncing(r), Removing(r), Deciding(r), Adding(r), Spawning(r), AddingPending(r)};
    forall x | x in stages
      ensures Count(Step(net, s, i), x) == Count(s, x) - One(x == t) + One(Next(net, s, t) == [x])
    {
      CountStep(net, s, i, x);
      NextCount(net, s, t, x);
    }
    CountStep(net, s, i, t);
    hide Step;
  }

  lemma NextCount(net: Net, s: State, t: Task, x: Task)
    requires TaskOk(net, t) && !x.Starting?
    ensures multiset(Next(net, s, t))[x] == One(Next(net, s, t) == [x])
  {
    if t.Spawning? {
      StartAllCount(net.answers[t.r].hosts, net.answers[t.r].master, x);
      var started := StartAll(net.answers[t.r].hosts, net.answers[t.r].master);
      assert started != [] ==> started[0].Starting?;
    }
  }

  lemma CountsKept(net: Net, s: State, i: nat, r: Resolved)
    requires i < |s.tasks| && TaskOk(net, s.tasks[i])
    requires CountsOk(net, s, r)
    requires r in s.notYetAdded ==> r in s.decided
    requires r in s.decided ==> r in s.seen && r in net.answers
    ensures CountsOk(net, Step(net, s, i), r)
  {
    hide AddCountsOk, SyncCountsOk, Step;
    SyncCountsKept(net, s, i, r);
    AddCountsKept(net, s, i, r);
  }

  lemma SyncCountsKept(net: Net, s: State, i: nat, r: Resolved)
    requires i < |s.tasks| && TaskOk(net, s.tasks[i])
    requires CountsOk(net, s, r)
    requires r in s.decided ==> r in s.seen && r in net.answers
    ensures SyncCountsOk(net, Step(net, s, i), r)
  {
    hide Count, AddServer, RemoveServer, StartAll, AddCountsOk;
    CountStages(net, s, i, r);
    var t := s.tasks[i];
    if t.Spawning? {
      OnlyStarts(net.answers[t.r].hosts, net.answers[t.r].master);
    }
  }

  lemma AddCountsKept(net: Net, s: State, i: nat, r: Resolved)
    requires i < |s.tasks| && TaskOk(net, s.tasks[i])
    requires CountsOk(net, s, r)
    requires r in s.notYetAdded ==> r in s.decided
    requires r in s.decided ==> r in s.seen && r in net.answers
    ensures AddCountsOk(Step(net, s, i), r)
  {
    hide Count, AddServer, RemoveServer, StartAll;
    CountStages(net, s, i, r);
    var t := s.tasks[i];
    if t.Spawning? {
      OnlyStarts(net.answers[t.r].hosts, net.answers[t.r].master);
    }
  }

  lemma OnlyStarts(hosts: seq<Name>, byMaster: bool)
    ensures StartAll(hosts, byMaster) == [] || StartAll(hosts, byMaster)[0].Starting?
  {
  }

  lemma SetsKept(net: Net, known: seq<Name>, s: State, i: nat, r: Resolved)
    requires i < |s.tasks| && TaskOk(net, s.tasks[i]) && GoodTask(net, known, s, s.tasks[i])
    requires SetsOk(net, known, s, r)
    requires forall q :: CountsOk(net, s, q)
    ensures SetsOk(net, known, Step(net, s, i), r)
  {
    hide Count, Reachable, Listed, Mentioned, Next;
    var t := s.tasks[i];
    CountStages(net, s, i, r);
    if t.Starting? && t.name in net.resolve {
      MentionedIsReachable(net, known, t.name, t.byMaster);
    }
  }

  lemma CompleteKept(net: Net, known: seq<Name>, s: State, i: nat)
    requires i < |s.tasks| && TaskOk(net, s.tasks[i]) && GoodTask(net, known, s, s.tasks[i])
    requires s.complete ==> IsComplete(net, known)
    requires forall q :: SetsOk(net, known, s, q)
    ensures Step(net, s, i).complete ==> IsComplete(net, known)
  {
    hide Reachable, Next, IsComplete;
    var t := s.tasks[i];
    if t.Deciding? && AddsNow(net, s, t.r) {
      assert SetsOk(net, known, s, t.r);
      HeardFromPrimary(net, known, t.r);
    }
  }

  lemma HeardFromPrimary(net: Net, known: seq<Name>, r: Resolved)
    requires Reachable(net, known, r) && r in net.answers
    requires net.direct || net.answers[r].master || Listed(net, known, r)
    ensures IsComplete(net, known)
  {
    hide Reachable;
    if !net.direct && !net.answers[r].master {
      var m, name :| ListedBy(net, known, m, name, r);
      assert Reachable(net, known, m) && m in net.answers && net.answers[m].master;
    }
  }

  lemma TasksKept(net: Net, known: seq<Name>, s: State, i: nat, t: Task)
    requires i < |s.tasks| && TaskOk(net, s.tasks[i]) && GoodTask(net, known, s, s.tasks[i])
    requires forall q :: SetsOk(net, known, s, q)
    requires t in Step(net, s, i).tasks && (t in s.tasks ==> GoodTask(net, known, s, t))
    ensures GoodTask(net, known, Step(net, s, i), t)
  {
    hide GoodTask, SetsOk, Next, Effect, Reachable;
    var t0 := s.tasks[i];
    if t in s.tasks {
      GoodTaskStays(net, known, s, i, t);
    } else {
      assert t in Next(net, s, t0);
      if t0.Spawning? {
        SpawnedIsGood(net, known, s, i, t);
      } else {
        NextIsGood(net, known, s, i, t);
      }
    }
  }

  lemma GoodTaskStays(net: Net, known: seq<Name>, s: State, i: nat, t: Task)
    requires i < |s.tasks| && TaskOk(net, s.tasks[i]) && GoodTask(net, known, s, t)
    ensures GoodTask(net, known, Step(net, s, i), t)
  {
    hide ShouldAdd, Mentioned, AddServer, RemoveServer, Next;
  }

  lemma NextIsGood(net: Net, known: seq<Name>, s: State, i: nat, t: Task)
    requires i < |s.tasks| && TaskOk(net, s.tasks[i]) && GoodTask(net, known, s, s.tasks[i])
    requires forall q :: SetsOk(net, known, s, q)
    requires t in Next(net, s, s.tasks[i]) && !s.tasks[i].Spawning?
    ensures GoodTask(net, known, Step(net, s, i), t)
  {
    hide Reachable, Listed, Mentioned, AddServer, RemoveServer, StartAll;
    var t0 := s.tasks[i];
    if t0.Deciding? {
      assert SetsOk(net, known, s, t0.r);
    } else if t0.Starting? && t0.name in net.resolve {
      assert SetsOk(net, known, s, net.resolve[t0.name]);
      MentionedIsReachable(net, known, t0.name, t0.byMaster);
    }
  }

  lemma SpawnedIsGood(net: Net, known: seq<Name>, s: State, i: nat, t: Task)
    requires i < |s.tasks| && TaskOk(net, s.tasks[i]) && GoodTask(net, known, s, s.tasks[i])
    requires forall q :: SetsOk(net, known, s, q)
    requires t in Next(net, s, s.tasks[i]) && s.tasks[i].Spawning?
    ensures GoodTask(net, known, Step(net, s, i), t)
  {
    hide Reachable, Mentioned, StartAll;
    var r := s.tasks[i].r;
    assert SetsOk(net, known, s, r);
    var a := net.answers[r];
    StartAllCount(a.hosts, a.master, t);
    SpawnedIsMentioned(net, known, r, t.name);
  }

  lemma SpawnedIsMentioned(net: Net, known: seq<Name>, r: Resolved, name: Name)
    requires Reachable(net, known, r) && Lists(net, r, name)
    ensures Mentioned(net, known, name, net.answers[r].master)
  {
    hide Reachable;
    assert MentionedBy(net, known, r, name, net.answers[r].master);
  }

  lemma ServersKept(net: Net, before: map<Resolved, bool>, s: State, i: nat, r: Resolved)
    requires i < |s.tasks| && TaskOk(net, s.tasks[i])
    requires ServerOk(net, before, s, r) && (r in s.failed ==> r !in net.answers)
    requires s.tasks[i].Removing? ==> s.tasks[i].r !in net.answers
    ensures ServerOk(net, before, Step(net, s, i), r)
  {
    hide Next;
  }

  lemma MarkedKept(net: Net, s: State, i: nat, r: Resolved)
    requires i < |s.tasks| && TaskOk(net, s.tasks[i])
    requires Marked(s, r)
    ensures Marked(Step(net, s, i), r)
  {
    hide Count;
    CountStages(net, s, i, r);
  }

  /** A name that has been looked at stays so, and the step of its goroutine looks at it. */
  lemma CoverKept(net: Net, s: State, i: nat, name: Name, byMaster: bool)
    requires i < |s.tasks| && TaskOk(net, s.tasks[i])
    requires Covered(net, s, name, byMaster)
    requires forall q :: q in s.notYetAdded ==> q in s.seen
    ensures Covered(net, Step(net, s, i), name, byMaster)
  {
    hide Count;
    var t, s' := s.tasks[i], Step(net, s, i);
    if name in net.resolve {
      var r := net.resolve[name];
      assert s.seen <= s'.seen;
      if r in s.seen && (byMaster ==> Marked(s, r)) {
        if byMaster {
          MarkedKept(net, s, i, r);
        }
      } else if t == Starting(name, byMaster) {
        CountStages(net, s, i, r);
      } else {
        CountStep(net, s, i, Starting(name, byMaster));
      }
    }
  }

  lemma SpawnCovers(net: Net, s: State, i: nat, name: Name)
    requires i < |s.tasks| && TaskOk(net, s.tasks[i]) && s.tasks[i].Spawning?
    requires Lists(net, s.tasks[i].r, name)
    ensures Covered(net, Step(net, s, i), name, net.answers[s.tasks[i].r].master)
  {
    var a := net.answers[s.tasks[i].r];
    var x := Starting(name, a.master);
    StartAllCount(a.hosts, a.master, x);
    CountStep(net, s, i, x);
  }

  /** Every step of every goroutine keeps the invariant. */
  lemma StepKeepsInv(net: Net, known: seq<Name>, before: map<Resolved, bool>, s: State, i: nat)
    requires Inv(net, known, before, s) && i < |s.tasks|
    ensures TaskOk(net, s.tasks[i]) && Inv(net, known, before, Step(net, s, i))
  {
    hide GoodTask, SetsOk, CountsOk, ServerOk, Covered, Effect, Next, IsComplete;
    InvEnables(net, known, before, s, i);
    var s' := Step(net, s, i);
    forall r
      ensures SetsOk(net, known, s', r) && CountsOk(net, s', r) && ServerOk(net, before, s', r)
    {
      SetsKept(net, known, s, i, r);
      SetsFacts(net, known, s, r);
      CountsKept(net, s, i, r);
      GoodRemoving(net, known, s, s.tasks[i]);
      ServersKept(net, before, s, i, r);
    }
    forall t | t in s'.tasks
      ensures GoodTask(net, known, s', t)
    {
      TasksKept(net, known, s, i, t);
    }
    CompleteKept(net, known, s, i);
    forall q | q in s.notYetAdded ensures q in s.seen {
      SetsFacts(net, known, s, q);
    }
    forall name | name in known
      ensures Covered(net, s', name, false)
    {
      CoverKept(net, s, i, name, false);
    }
    forall r, name | r in s'.spawned && Lists(net, r, name)
      ensures Covered(net, s', name, net.answers[r].master)
    {
      SpawnedStep(net, s, i, r);
      if r in s.spawned {
        CoverKept(net, s, i, name, net.answers[r].master);
      } else {
        SpawnCovers(net, s, i, name);
      }
    }
  }

  lemma InvEnables(net: Net, known: seq<Name>, before: map<Resolved, bool>, s: State, i: nat)
    requires Inv(net, known, before, s) && i < |s.tasks|
    ensures GoodTask(net, known, s, s.tasks[i]) && TaskOk(net, s.tasks[i])
  {
    hide CountsOk, ServerOk, Covered;
    var t := s.tasks[i];
    assert t in s.tasks;
    if t.AddingPending? || t.Adding? || t.Spawning? {
      assert SetsOk(net, known, s, t.r);
    }
  }

  lemma SetsFacts(net: Net, known: seq<Name>, s: State, r: Resolved)
    requires SetsOk(net, known, s, r)
    ensures r in s.notYetAdded ==> r in s.decided
    ensures r in s.decided ==> r in s.seen && r in net.answers
    ensures r in s.failed ==> r !in net.answers
  {
  }

  lemma GoodRemoving(net: Net, known: seq<Name>, s: State, t: Task)
    requires GoodTask(net, known, s, t)
    ensures t.Removing? ==> t.r !in net.answers
  {
  }

  lemma SpawnedStep(net: Net, s: State, i: nat, r: Resolved)
    requires i < |s.tasks| && TaskOk(net, s.tasks[i]) && r in Step(net, s, i).spawned
    ensures r in s.spawned || s.tasks[i] == Spawning(r)
  {
    hide Next;
  }

  lemma InitIsGood(net: Net, known: seq<Name>, before: map<Resolved, bool>)
    ensures Inv(net, known, before, Init(known, before))
  {
    hide Reachable, Listed, CountsOk;
    var s := Init(known, before);
    forall t | t in s.tasks ensures GoodTask(net, known, s, t) {
      StartAllCount(known, false, t);
    }
    forall name | name in known ensures Covered(net, s, name, false) {
      StartAllCount(known, false, Starting(name, false));
    }
    forall r ensures CountsOk(net, s, r) {
      InitCounts(net, known, before, r);
    }
    forall r ensures SetsOk(net, known, s, r) && ServerOk(net, before, s, r) {
    }
  }

  lemma InitCounts(net: Net, known: seq<Name>, before: map<Resolved, bool>, r: Resolved)
    ensures CountsOk(net, Init(known, before), r)
  {
    StartAllCount(known, false, Syncing(r));
    StartAllCount(known, false, Deciding(r));
    StartAllCount(known, false, Adding(r));
    StartAllCount(known, false, AddingPending(r));
    StartAllCount(known, false, Spawning(r));
    hide StartAll;
  }

  lemma {:induction false} RunKeepsInv(net: Net, known: seq<Name>, before: map<Resolved, bool>,
                                       s: State, schedule: seq<nat>, end: State)
    requires Inv(net, known, before, s) && Run(net, s, schedule, end)
    ensures Inv(net, known, before, end)
    decreases |schedule|
  {
    hide Inv, Step;
    if schedule != [] {
      StepKeepsInv(net, known, before, s, schedule[0]);
      RunKeepsInv(net, known, before, Step(net, s, schedule[0]), schedule[1..], end);
    }
  }

  // ------------------------------------------------------------------ the end of every run

  /** The loops after wg.Wait over what is still kept back, in some order. */
  function Settle(net: Net, complete: bool, servers: map<Resolved, bool>, pending: seq<Resolved>): map<Resolved, bool>
    requires forall r <- pending :: r in net.answers
    decreases |pending|
  {
    if pending == [] then servers
    else
      var r := pending[0];
      Settle(net, complete,
             if complete then RemoveServer(servers, r) else AddServer(servers, r, net.answers[r].master, false),
             pending[1..])
  }

  /** What the loops come to, whatever the order of the map iteration. */
  lemma {:induction false} SettleAt(net: Net, complete: bool, servers: map<Resolved, bool>, pending: seq<Resolved>, r: Resolved)
    requires forall q <- pending :: q in net.answers
    ensures var done := Settle(net, complete, servers, pending);
            if r in pending then
              if complete then r !in done
              else (r in done <==> r in servers) && (r in done ==> done[r] == net.answers[r].master)
            else (r in done <==> r in servers) && (r in done ==> done[r] == servers[r])
    decreases |pending|
  {
    if pending != [] {
      var q := pending[0];
      var next := if complete then RemoveServer(servers, q) else AddServer(servers, q, net.answers[q].master, false);
      SettleAt(net, complete, next, pending[1..], r);
    }
  }

  /** The cluster's servers after the iteration, from the network alone. */
  ghost predicate Outcome(net: Net, known: seq<Name>, before: map<Resolved, bool>, after: map<Resolved, bool>)
  {
    forall r :: OutcomeAt(net, known, before, after, r)
  }

  ghost predicate OutcomeAt(net: Net, known: seq<Name>, before: map<Resolved, bool>, after: map<Resolved, bool>, r: Resolved)
  {
    if !Reachable(net, known, r) then
      (r in after <==> r in before) && (r in after ==> after[r] == before[r])
    else if r !in net.answers then r !in after
    else if ShouldAdd(net, known, r) then r in after && after[r] == net.answers[r].master
    else if IsComplete(net, known) then r !in after
    else (r in after <==> r in before) && (r in after ==> after[r] == net.answers[r].master)
  }

  /** At the end every link of a chain has been seen. */
  lemma {:induction false} ChainIsSeen(net: Net, known: seq<Name>, before: map<Resolved, bool>, s: State, path: seq<Name>, i: nat)
    requires Inv(net, known, before, s) && s.tasks == [] && Chain(net, known, path) && i < |path|
    ensures net.resolve[path[i]] in s.seen
    decreases i
  {
    hide SetsOk, ServerOk, IsComplete, Mentioned;
    if i == 0 {
      assert Covered(net, s, path[0], false);
    } else {
      ChainIsSeen(net, known, before, s, path, i - 1);
      var r := net.resolve[path[i - 1]];
      assert Lists(net, r, path[i]);
      assert CountsOk(net, s, r);
      assert r in s.spawned;
      assert Covered(net, s, path[i], net.answers[r].master);
    }
  }

  lemma SeenIsReachable(net: Net, known: seq<Name>, before: map<Resolved, bool>, s: State, r: Resolved)
    requires Inv(net, known, before, s) && s.tasks == []
    ensures r in s.seen <==> Reachable(net, known, r)
  {
    hide CountsOk, ServerOk, IsComplete, Mentioned, Covered;
    assert SetsOk(net, known, s, r);
    if Reachable(net, known, r) {
      var path :| Chain(net, known, path) && net.resolve[path[|path| - 1]] == r;
      ChainIsSeen(net, known, before, s, path, |path| - 1);
    }
  }

  /** At the end an answering address was added if it should have been, and kept back otherwise. */
  lemma AddedIsRight(net: Net, known: seq<Name>, before: map<Resolved, bool>, s: State, r: Resolved)
    requires Inv(net, known, before, s) && s.tasks == []
    ensures s.added[r] == One(ShouldAdd(net, known, r))
    ensures s.synced[r] == One(Reachable(net, known, r))
    ensures r in s.notYetAdded <==> Reachable(net, known, r) && r in net.answers && !ShouldAdd(net, known, r)
  {
    hide ServerOk, IsComplete, Mentioned, Covered, Reachable, Listed;
    SeenIsReachable(net, known, before, s, r);
    assert SetsOk(net, known, s, r) && CountsOk(net, s, r);
    if r in s.notYetAdded && Listed(net, known, r) {
      ListedIsMarked(net, known, before, s, r);
      assert false;
    }
  }

  lemma ListedIsMarked(net: Net, known: seq<Name>, before: map<Resolved, bool>, s: State, r: Resolved)
    requires Inv(net, known, before, s) && s.tasks == [] && Listed(net, known, r)
    ensures r in s.addIfFound || r in s.added
  {
    hide ServerOk, IsComplete, Mentioned, SetsOk, Reachable;
    var m, name :| ListedBy(net, known, m, name, r);
    SeenIsReachable(net, known, before, s, m);
    assert CountsOk(net, s, m);
    assert m in s.spawned && Lists(net, m, name);
    assert Covered(net, s, name, net.answers[m].master);
  }

  lemma CompleteIsRight(net: Net, known: seq<Name>, before: map<Resolved, bool>, s: State)
    requires Inv(net, known, before, s) && s.tasks == []
    ensures s.complete <==> IsComplete(net, known)
  {
    hide ServerOk, Mentioned, Covered, Reachable;
    if IsComplete(net, known) {
      var r :| Reachable(net, known, r) && r in net.answers && (net.direct || net.answers[r].master);
      SeenIsReachable(net, known, before, s, r);
      assert SetsOk(net, known, s, r) && CountsOk(net, s, r);
    }
  }

  /** The whole iteration: a run until no goroutine is left, then the loops over what is kept back. */
  ghost predicate Iteration(net: Net, known: seq<Name>, before: map<Resolved, bool>,
                            schedule: seq<nat>, end: State, pending: seq<Resolved>)
  {
    && Run(net, Init(known, before), schedule, end) && end.tasks == []
    && (forall r :: r in pending <==> r in end.notYetAdded)
    && (forall r <- pending :: r in net.answers)
  }

  /** Every schedule: each reachable address is synced exactly once and no other; exactly the
      servers that should be are added, each once; the cluster ends up as the network alone
      determines. */
  lemma SyncOutcome(net: Net, known: seq<Name>, before: map<Resolved, bool>,
                    schedule: seq<nat>, end: State, pending: seq<Resolved>)
    requires Iteration(net, known, before, schedule, end, pending)
    ensures forall r :: end.synced[r] == One(Reachable(net, known, r))
    ensures forall r :: end.added[r] == One(ShouldAdd(net, known, r))
    ensures end.complete <==> IsComplete(net, known)
    ensures Outcome(net, known, before, Settle(net, end.complete, end.servers, pending))
  {
    hide Inv, Run, Init, Reachable, ShouldAdd, IsComplete, ServerOk, Settle;
    InitIsGood(net, known, before);
    RunKeepsInv(net, known, before, Init(known, before), schedule, end);
    CompleteIsRight(net, known, before, end);
    forall r
      ensures end.synced[r] == One(Reachable(net, known, r)) && end.added[r] == One(ShouldAdd(net, known, r))
      ensures OutcomeAt(net, known, before, Settle(net, end.complete, end.servers, pending), r)
    {
      AddedIsRight(net, known, before, end, r);
      SettleAt(net, end.complete, end.servers, pending, r);
      ServersAtEnd(net, known, before, end, r);
      ShouldAddFacts(net, known, r);
    }
  }

  lemma ShouldAddFacts(net: Net, known: seq<Name>, r: Resolved)
    ensures ShouldAdd(net, known, r) ==> Reachable(net, known, r) && r in net.answers
  {
  }

  lemma ServersAtEnd(net: Net, known: seq<Name>, before: map<Resolved, bool>, s: State, r: Resolved)
    requires Inv(net, known, before, s) && s.tasks == []
    ensures if ShouldAdd(net, known, r) then r in s.servers && s.servers[r] == net.answers[r].master
            else if Reachable(net, known, r) && r !in net.answers then r !in s.servers
            else (r in s.servers <==> r in before) && (r in s.servers ==> s.servers[r] == before[r])
  {
    hide Mentioned, Covered, Reachable, IsComplete;
    AddedIsRight(net, known, before, s, r);
    SeenIsReachable(net, known, before, s, r);
    assert SetsOk(net, known, s, r) && CountsOk(net, s, r) && ServerOk(net, before, s, r);
  }

  /** Two schedules of one iteration end alike: confluence. */
  lemma ScheduleDoesNotMatter(net: Net, known: seq<Name>, before: map<Resolved, bool>,
                              schedule1: seq<nat>, end1: State, pending1: seq<Resolved>,
                              schedule2: seq<nat>, end2: State, pending2: seq<Resolved>)
    requires Iteration(net, known, before, schedule1, end1, pending1)
    requires Iteration(net, known, before, schedule2, end2, pending2)
    ensures end1.synced == end2.synced && end1.added == end2.added && end1.complete == end2.complete
    ensures Settle(net, end1.complete, end1.servers, pending1) == Settle(net, end2.complete, end2.servers, pending2)
  {
    hide Iteration, Outcome, Settle, Reachable, ShouldAdd, IsComplete;
    IterationOrder(net, known, before, schedule1, end1, pending1);
    IterationOrder(net, known, before, schedule2, end2, pending2);
    SyncOutcome(net, known, before, schedule1, end1, pending1);
    SyncOutcome(net, known, before, schedule2, end2, pending2);
    OutcomeIsOne(net, known, before, Settle(net, end1.complete, end1.servers, pending1),
                 Settle(net, end2.complete, end2.servers, pending2));
  }

  lemma IterationOrder(net: Net, known: seq<Name>, before: map<Resolved, bool>,
                       schedule: seq<nat>, end: State, pending: seq<Resolved>)
    requires Iteration(net, known, before, schedule, end, pending)
    ensures forall r <- pending :: r in net.answers
  {
  }

  lemma OutcomeIsOne(net: Net, known: seq<Name>, before: map<Resolved, bool>, a: map<Resolved, bool>, b: map<Resolved, bool>)
    requires Outcome(net, known, before, a) && Outcome(net, known, before, b)
    ensures a == b
  {
    hide Reachable, ShouldAdd, IsComplete;
    forall r
      ensures (r in a <==> r in b) && (r in a ==> a[r] == b[r])
    {
      assert OutcomeAt(net, known, before, a, r) && OutcomeAt(net, known, before, b, r);
    }
  }

  // ------------------------------------------------------------------ termination

  function Weight(t: Task): nat
  {
    match t
    case Starting(_, _) => 2
    case AddingPending(_) => 1
    case Syncing(_) => 4
    case Removing(_) => 1
    case Deciding(_) => 3
    case Adding(_) => 2
    case Spawning(_) => 1
  }

  function TotalWeight(ts: seq<Task>): nat
  {
    if ts == [] then 0 else Weight(ts[0]) + TotalWeight(ts[1..])
  }

  lemma {:induction false} WeightOfConcat(a: seq<Task>, b: seq<Task>)
    ensures TotalWeight(a + b) == TotalWeight(a) + TotalWeight(b)
  {
    if a == [] {
      assert a + b == b;
    } else {
      assert (a + b)[1..] == a[1..] + b;
      WeightOfConcat(a[1..], b);
    }
  }

  /** Addresses not yet seen; servers whose hosts are not yet spawned; work at hand. */
  function Unseen(net: Net, s: State): set<Resolved>
  {
    net.resolve.Values - s.seen
  }

  function Unspawned(net: Net, s: State): set<Resolved>
  {
    net.answers.Keys - s.spawned
  }

  lemma WeightReplaced(a: seq<Task>, t: Task, next: seq<Task>, b: seq<Task>)
    requires next == [] || (exists x :: next == [x] && Weight(x) < Weight(t))
    ensures TotalWeight(a + (next + b)) < TotalWeight(a + ([t] + b))
  {
    WeightOfConcat(a, [t] + b);
    WeightOfConcat([t], b);
    WeightOfConcat(a, next + b);
    WeightOfConcat(next, b);
    assert [t][1..] == [];
    if next != [] {
      assert next[1..] == [];
    }
  }

  /** Every step decreases this triple. */
  lemma StepDecreases(net: Net, known: seq<Name>, before: map<Resolved, bool>, s: State, i: nat)
    requires Inv(net, known, before, s) && i < |s.tasks| && TaskOk(net, s.tasks[i])
    ensures var s' := Step(net, s, i);
            || Unseen(net, s') < Unseen(net, s)
            || (Unseen(net, s') == Unseen(net, s) && Unspawned(net, s') < Unspawned(net, s))
            || (Unseen(net, s') == Unseen(net, s) && Unspawned(net, s') == Unspawned(net, s)
                && TotalWeight(s'.tasks) < TotalWeight(s.tasks))
  {
    hide Inv;
    var t, s' := s.tasks[i], Step(net, s, i);
    var a, b, next := s.tasks[..i], s.tasks[i + 1..], Next(net, s, t);
    if t.Spawning? {
      SpawnsOnce(net, known, before, s, i);
      assert t.r in Unspawned(net, s) && t.r !in Unspawned(net, s');
    } else if s'.seen != s.seen {
      var r := net.resolve[t.name];
      assert r in net.resolve.Values;
      assert r in Unseen(net, s) && r !in Unseen(net, s');
    } else {
      assert s.tasks == a + ([t] + b) && s'.tasks == a + (next + b);
      WeightReplaced(a, t, next, b);
    }
  }

  lemma SpawnsOnce(net: Net, known: seq<Name>, before: map<Resolved, bool>, s: State, i: nat)
    requires Inv(net, known, before, s) && i < |s.tasks| && s.tasks[i].Spawning?
    ensures s.tasks[i].r in s.decided && s.tasks[i].r !in s.spawned
  {
    hide GoodTask, SetsOk, ServerOk, Covered;
    var r := s.tasks[i].r;
    assert s.tasks[i] in multiset(s.tasks);
    assert CountsOk(net, s, r);
  }

  /** The k-th step of a run is taken by the task the schedule picks. */
  predicate Advances(net: Net, states: nat -> State, schedule: nat -> nat, k: nat)
  {
    && schedule(k) < |states(k).tasks|
    && TaskOk(net, states(k).tasks[schedule(k)])
    && states(k + 1) == Step(net, states(k), schedule(k))
  }

  /** No schedule goes on for ever. */
  lemma {:induction false} NoEndlessRun(net: Net, known: seq<Name>, before: map<Resolved, bool>,
                                        states: nat -> State, schedule: nat -> nat, n: nat)
    requires Inv(net, known, before, states(n))
    requires forall k :: k >= n ==> Advances(net, states, schedule, k)
    ensures false
    decreases Unseen(net, states(n)), Unspawned(net, states(n)), TotalWeight(states(n).tasks)
  {
    hide Inv, Step;
    assert Advances(net, states, schedule, n);
    StepKeepsInv(net, known, before, states(n), schedule(n));
    StepDecreases(net, known, before, states(n), schedule(n));
    NoEndlessRun(net, known, before, states, schedule, n + 1);
  }
}
