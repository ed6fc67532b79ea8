/**
 The sorted server sets of mgo.v2/server.go and their use by addServer and removeServer in
 mgo.v2/cluster.go. A resolved address stands as an integer: only its order and equality matter.
 */
module ClusterServers {
  import ClusterSync

  class Server {
    const addr: nat
    var master: bool

    constructor (a: nat)
      ensures addr == a && !master
    {
      addr := a;
      master := false;
    }
  }

  /** Ascending by address, with and without room for equal addresses. */
  predicate Sorted(s: seq<Server>)
  {
    forall i, j :: 0 <= i < j < |s| ==> s[i].addr <= s[j].addr
  }

  predicate Unique(s: seq<Server>)
  {
    forall i, j :: 0 <= i < j < |s| ==> s[i].addr < s[j].addr
  }

  predicate Holds(s: seq<Server>, addr: nat)
  {
    exists x <- s :: x.addr == addr
  }

  lemma InsertKeepsOrder(r: seq<Server>, i: nat, x: Server)
    requires Sorted(r) && i <= |r|
    requires forall k :: 0 <= k < i ==> r[k].addr <= x.addr
    requires i < |r| ==> x.addr < r[i].addr
    ensures Sorted(r[..i] + [x] + r[i..])
    ensures multiset(r[..i] + [x] + r[i..]) == multiset(r) + multiset{x}
  {
    assert r == r[..i] + r[i..];
  }

  /** sort.Sort on a slice of servers: ascending, and the same servers. */
  method SortServers(s: seq<Server>) returns (r: seq<Server>)
    ensures Sorted(r) && multiset(r) == multiset(s)
  {
    r := [];
    for n := 0 to |s|
      invariant Sorted(r) && multiset(r) == multiset(s[..n])
    {
      var i := 0;
      while i < |r| && r[i].addr <= s[n].addr
        invariant 0 <= i <= |r|
        invariant forall k :: 0 <= k < i ==> r[k].addr <= s[n].addr
      {
        i := i + 1;
      }
      assert s[..n + 1] == s[..n] + [s[n]];
      InsertKeepsOrder(r, i, s[n]);
      r := r[..i] + [s[n]] + r[i..];
    }
    assert s[..|s|] == s;
  }

  /** A duplicate-free slice is determined by its servers. */
  lemma AddedIsUnique(before: seq<Server>, after: seq<Server>, server: Server)
    requires Unique(before) && Sorted(after) && multiset(after) == multiset(before) + multiset{server}
    requires !Holds(before, server.addr)
    ensures Unique(after)
    ensures forall x :: x in after <==> x in before || x == server
  {
    forall x ensures x in after <==> x in before || x == server {
      assert x in after <==> x in multiset(after);
      assert x in before <==> x in multiset(before);
    }
    assert forall x :: x in before ==> x.addr != server.addr;
    assert server !in before;
    forall i, j | 0 <= i < j < |after|
      ensures after[i].addr < after[j].addr
    {
      assert after[i] in after && after[j] in after;
      if after[i] == after[j] {
        TwiceInSequence(after, i, j);
        OnceInUnique(before, after[i]);
      } else if after[i].addr == after[j].addr && after[i] in before && after[j] in before {
        OnePerAddress(before, after[i], after[j]);
      }
    }
  }

  lemma OnePerAddress(s: seq<Server>, a: Server, b: Server)
    requires Unique(s) && a in s && b in s && a.addr == b.addr
    ensures a == b
  {
    var i :| 0 <= i < |s| && s[i] == a;
    var j :| 0 <= j < |s| && s[j] == b;
  }

  lemma TwiceInSequence(s: seq<Server>, i: nat, j: nat)
    requires i < j < |s| && s[i] == s[j]
    ensures multiset(s)[s[i]] >= 2
  {
    assert s == s[..i] + [s[i]] + s[i + 1..j] + [s[j]] + s[j + 1..];
  }

  lemma {:induction false} OnceInUnique(s: seq<Server>, x: Server)
    requires Unique(s)
    ensures multiset(s)[x] <= 1
  {
    if s != [] {
      assert s == [s[0]] + s[1..];
      OnceInUnique(s[1..], x);
      forall k | 0 <= k < |s[1..]|
        ensures s[1..][k] != s[0]
      {
        assert s[1..][k] == s[k + 1];
      }
    }
  }

  class ServerList {
    var slice: seq<Server>

    constructor ()
      ensures slice == []
    {
      slice := [];
    }

    /** mongoServerSlice.Search: binary search for the first address not below addr. */
    method SearchIndex(addr: nat) returns (i: nat, ok: bool)
      requires Sorted(slice)
      ensures i <= |slice|
      ensures forall k :: 0 <= k < i ==> slice[k].addr < addr
      ensures forall k :: i <= k < |slice| ==> slice[k].addr >= addr
      ensures ok <==> Holds(slice, addr)
      ensures ok ==> i < |slice| && slice[i].addr == addr
    {
      var lo, hi := 0, |slice|;
      while lo < hi
        invariant 0 <= lo <= hi <= |slice|
        invariant forall k :: 0 <= k < lo ==> slice[k].addr < addr
        invariant forall k :: hi <= k < |slice| ==> slice[k].addr >= addr
      {
        var mid := lo + (hi - lo) / 2;
        if slice[mid].addr >= addr {
          hi := mid;
        } else {
          lo := mid + 1;
        }
      }
      i := lo;
      ok := i != |slice| && slice[i].addr == addr;
      if ok {
        assert slice[i] in slice;
      }
    }

    /** mongoServers.Search. */
    method Search(addr: nat) returns (server: Server?)
      requires Sorted(slice)
      ensures server != null <==> Holds(slice, addr)
      ensures server != null ==> server in slice && server.addr == addr
    {
      var i, ok := SearchIndex(addr);
      server := if ok then slice[i] else null;
    }

    /** mongoServers.Add: append, then sort. */
    method Add(server: Server)
      modifies this
      ensures Sorted(slice) && multiset(slice) == old(multiset(slice)) + multiset{server}
      ensures old(Unique(slice)) && !old(Holds(slice, server.addr)) ==>
                Unique(slice) && forall x :: x in slice <==> x in old(slice) || x == server
    {
      ghost var before := slice;
      slice := slice + [server];
      slice := SortServers(slice);
      if Unique(before) && !Holds(before, server.addr) {
        AddedIsUnique(before, slice, server);
      }
    }

    /** mongoServers.Remove: the server with the other's address, if there is one. */
    method Remove(other: Server) returns (server: Server?)
      requires Unique(slice)
      modifies this
      ensures Unique(slice)
      ensures forall x :: x in slice <==> x in old(slice) && x.addr != other.addr
      ensures server == null <==> !old(Holds(slice, other.addr))
      ensures server != null ==> server in old(slice) && server.addr == other.addr
    {
      var i, found := SearchIndex(other.addr);
      server := null;
      if found {
        server := slice[i];
        RemovedAt(slice, i);
        slice := slice[..i] + slice[i + 1..];
      }
    }
  }

  lemma RemovedAt(s: seq<Server>, i: nat)
    requires Unique(s) && i < |s|
    ensures var rest := s[..i] + s[i + 1..];
            Unique(rest) && forall x :: x in rest <==> x in s && x.addr != s[i].addr
  {
    var rest := s[..i] + s[i + 1..];
    forall k | 0 <= k < |rest| ensures rest[k] == s[if k < i then k else k + 1] {
    }
    forall x | x in s && x.addr != s[i].addr ensures x in rest {
      var k :| 0 <= k < |s| && s[k] == x;
      assert x == if k < i then rest[k] else rest[k - 1];
    }
  }

  /** The two server sets a cluster keeps. */
  class Cluster {
    const servers: ServerList
    const masters: ServerList

    /** The cluster as the synchronisation sees it: address to master flag. */
    ghost var view: map<nat, bool>

    constructor ()
      ensures Valid() && view == map[] && fresh(servers) && fresh(masters)
    {
      servers := new ServerList();
      masters := new ServerList();
      view := map[];
    }

    /** Both sets sorted without duplicates, masters holds exactly the masters among servers, and
        the view shows exactly the servers. */
    ghost predicate Valid()
      reads this, servers, masters, servers.slice
    {
      && servers != masters
      && Unique(servers.slice) && Unique(masters.slice)
      && (forall s <- masters.slice :: s in servers.slice && s.master)
      && (forall s <- servers.slice :: s.master ==> s in masters.slice)
      && (forall s <- servers.slice :: s.addr in view && view[s.addr] == s.master)
      && (forall a <- view :: Holds(servers.slice, a))
    }

    /** The branch of addServer for an address the cluster does not hold. */
    method AddUnknown(server: Server, master: bool)
      requires Valid() && !Holds(servers.slice, server.addr)
      modifies this, servers, masters, server
      ensures Valid() && view == old(view)[server.addr := master]
    {
      hide Unique, Holds;
      ghost var before := servers.slice;
      NoneHas(servers.slice, masters.slice, server.addr);
      servers.Add(server);
      if master {
        masters.Add(server);
      }
      server.master := master;
      view := view[server.addr := master];
      forall a | a in view ensures Holds(servers.slice, a) {
        if a == server.addr {
          HeldBy(servers.slice, server);
        } else {
          var x := Holder(before, a);
          HeldBy(servers.slice, x);
        }
      }
    }

    /** The branch for a server the cluster holds: it may change sides. */
    method UpdateKnown(server: Server, master: bool)
      requires Valid() && server in servers.slice
      modifies this, masters, server
      ensures Valid() && view == old(view)[server.addr := master]
    {
      forall x <- servers.slice ensures x.addr == server.addr ==> x == server {
        if x.addr == server.addr {
          OnePerAddress(servers.slice, x, server);
        }
      }
      hide Unique, Holds;
      if server.master != master {
        ChangeSide(server, master);
      }
      server.master := master;
      view := view[server.addr := master];
    }

    /** The same change in the list of masters. */
    method ChangeSide(server: Server, master: bool)
      requires Unique(masters.slice) && (server in masters.slice <==> !master)
      requires forall x <- masters.slice :: x.addr == server.addr ==> x == server
      modifies masters
      ensures Unique(masters.slice)
      ensures forall x :: x in masters.slice <==> if x == server then master else x in old(masters.slice)
    {
      hide Unique;
      if master {
        assert !Holds(masters.slice, server.addr);
        masters.Add(server);
      } else {
        var removed := masters.Remove(server);
      }
    }

    /** cluster.addServer; panicked reports "attempting to add duplicated server". */
    method AddServer(server: Server, master: bool, complete: bool) returns (panicked: bool)
      requires Valid()
      modifies this, servers, masters, server
      ensures panicked <==> exists x <- old(servers.slice) :: x.addr == server.addr && x != server
      ensures panicked ==> servers.slice == old(servers.slice)
      ensures panicked ==> masters.slice == old(masters.slice) && server.master == old(server.master)
      ensures !panicked ==> Valid()
      ensures !panicked ==> view == ClusterSync.AddServer(old(view), server.addr, master, complete)
    {
      var current := servers.Search(server.addr);
      assert Holds(servers.slice, server.addr) <==> server.addr in view by {
        if Holds(servers.slice, server.addr) {
          var x :| x in servers.slice && x.addr == server.addr;
        }
      }
      if current == null {
        if !complete {
          return false;
        }
        AddUnknown(server, master);
        return false;
      }
      forall x <- servers.slice ensures x.addr == server.addr ==> x == current {
        if x.addr == server.addr {
          OnePerAddress(servers.slice, x, current);
        }
      }
      if server != current {
        return true;
      }
      UpdateKnown(server, master);
      return false;
    }

    /** cluster.removeServer. */
    method RemoveServer(server: Server)
      requires Valid()
      modifies this, servers, masters
      ensures Valid()
      ensures view == ClusterSync.RemoveServer(old(view), server.addr)
    {
      hide Unique, Holds;
      ghost var before := servers.slice;
      var master := masters.Remove(server);
      var other := servers.Remove(server);
      view := view - {server.addr};
      forall a | a in view ensures Holds(servers.slice, a) {
        var x := Holder(before, a);
        HeldBy(servers.slice, x);
      }
    }
  }

  lemma Holder(s: seq<Server>, addr: nat) returns (x: Server)
    requires Holds(s, addr)
    ensures x in s && x.addr == addr
  {
    x :| x in s && x.addr == addr;
  }

  lemma NoneHas(s: seq<Server>, part: seq<Server>, addr: nat)
    requires !Holds(s, addr) && forall x <- part :: x in s
    ensures forall x <- s :: x.addr != addr
    ensures !Holds(part, addr)
  {
  }

  lemma HeldBy(s: seq<Server>, x: Server)
    requires x in s
    ensures Holds(s, x.addr)
  {
  }
}
