/**
 The route tree agrees with its routes: it matches exactly the URLs some added route matches, with the
 handler of the first such route in segment-by-segment order.
 */
module RouteOrder {
  import opened Base
  import opened RouteTree

  /** A route as it was added. */
  datatype Route = Route(segs: seq<string>, handle: Handle)

  predicate Routes(added: seq<Route>)
  {
    forall i :: 0 <= i < |added| ==> added[i].segs != []
  }

  /** Routes of static, ":name" and "*" segments. */
  predicate AllSupported(added: seq<Route>)
  {
    forall i :: 0 <= i < |added| ==> forall j :: 0 <= j < |added[i].segs| ==> Supported(added[i].segs[j])
  }

  function NewTree(): Tree
  {
    Tree("", [], [])
  }

  /** The tree after adding the routes in order. */
  function Built(added: seq<Route>): Tree
    requires Routes(added)
    decreases |added|
  {
    if added == [] then NewTree()
    else AddRoute(Built(added[..|added| - 1]), added[|added| - 1].segs, added[|added| - 1].handle)
  }

  // ------------------------------------------------------------------ which route matches, declaratively

  /** A route matches when each of its segments fits; a final "*" takes one or more segments. */
  predicate Matches(route: seq<string>, url: seq<string>)
    requires route != []
    decreases |route|
  {
    && url != []
    && if |route| == 1 then Fits(route[0], url[0]) && (|url| == 1 || TypeOf(route[0]) == MatchAll)
       else |url| > 1 && Fits(route[0], url[0]) && Matches(route[1..], url[1..])
  }

  predicate Has(added: seq<Route>, route: seq<string>)
  {
    exists i :: 0 <= i < |added| && added[i].segs == route
  }

  /** The first place a route ending with this segment, or going on after it, was added. */
  function FirstLeaf(added: seq<Route>, seg: string): (i: nat)
    ensures i <= |added|
  {
    if added == [] || added[0].segs == [seg] then 0 else 1 + FirstLeaf(added[1..], seg)
  }

  predicate GoesOn(r: Route, seg: string)
  {
    |r.segs| > 1 && r.segs[0] == seg
  }

  function FirstBranch(added: seq<Route>, seg: string): (i: nat)
    ensures i <= |added|
  {
    if added == [] || GoesOn(added[0], seg) then 0 else 1 + FirstBranch(added[1..], seg)
  }

  /** The routes that go on after a segment, without it. */
  function Tails(added: seq<Route>, seg: string): (r: seq<Route>)
    ensures Routes(r)
    decreases |added|
  {
    if added == [] then []
    else
      var last := added[|added| - 1];
      Tails(added[..|added| - 1], seg) + if GoesOn(last, seg) then [Route(last.segs[1..], last.handle)] else []
  }

  predicate LeafBefore(added: seq<Route>, a: string, b: string)
  {
    Rank(a) < Rank(b) || (Rank(a) == Rank(b) && FirstLeaf(added, a) < FirstLeaf(added, b))
  }

  predicate BranchBefore(added: seq<Route>, a: string, b: string)
  {
    Rank(a) < Rank(b) || (Rank(a) == Rank(b) && FirstBranch(added, a) < FirstBranch(added, b))
  }

  /** The order of routes: segment by segment, static before holder before match-all and then the one
      added first; a route that goes on before one that ends. */
  predicate Precedes(added: seq<Route>, p: seq<string>, q: seq<string>)
    requires p != [] && q != []
    decreases |p|
  {
    if |p| > 1 && |q| > 1 then
      if p[0] == q[0] then Precedes(Tails(added, p[0]), p[1..], q[1..]) else BranchBefore(added, p[0], q[0])
    else |p| > 1 || (|q| == 1 && LeafBefore(added, p[0], q[0]))
  }

  lemma HasLast(added: seq<Route>, route: seq<string>)
    requires Has(added, route) && added != []
    ensures Has(added[..|added| - 1], route) || added[|added| - 1].segs == route
  {
    var i :| 0 <= i < |added| && added[i].segs == route;
    if i < |added| - 1 {
      assert added[..|added| - 1][i].segs == route;
    }
  }

  /** The handle of the first addition of a route. */
  function HandleOf(added: seq<Route>, route: seq<string>): Handle
    requires Has(added, route)
    decreases |added|
  {
    var last := |added| - 1;
    if Has(added[..last], route) then HandleOf(added[..last], route)
    else
      HasLast(added, route);
      added[last].handle
  }

  /** The parameters a route takes from a URL it matches. */
  function ParamsOf(route: seq<string>, url: seq<string>, level: nat): map<Key, string>
    requires route != [] && Matches(route, url)
    decreases |route|
  {
    if |route| == 1 then LeafParams(route[0], JoinSegments(url), level)
    else SubtreeParams(route[0], url[0], level, ParamsOf(route[1..], url[1..], Below(route[0], level)))
  }

  /** A route that matches and precedes every other one that does. */
  ghost predicate Best(added: seq<Route>, url: seq<string>, p: seq<string>)
  {
    && Has(added, p) && p != [] && Matches(p, url)
    && forall q :: Has(added, q) && q != [] && q != p && Matches(q, url) ==> Precedes(added, p, q)
  }

  // ------------------------------------------------------------------ what the tree holds

  /** The leaves are the routes of one segment, in order, each with its first handle. */
  predicate LeavesHold(leaves: seq<Leaf>, added: seq<Route>)
  {
    && (forall i :: 0 <= i < |leaves| ==>
          FirstLeaf(added, leaves[i].pattern) < |added|
          && added[FirstLeaf(added, leaves[i].pattern)].handle == leaves[i].handle)
    && (forall i, j :: 0 <= i < j < |leaves| ==> LeafBefore(added, leaves[i].pattern, leaves[j].pattern))
    && (forall k :: 0 <= k < |added| && |added[k].segs| == 1 ==> FindLeaf(leaves, added[k].segs[0]) < |leaves|)
  }

  /** The subtrees are the first segments of the longer routes, in order. */
  predicate BranchesHold(subtrees: seq<Tree>, added: seq<Route>)
  {
    && (forall i :: 0 <= i < |subtrees| ==> FirstBranch(added, subtrees[i].pattern) < |added|)
    && (forall i, j :: 0 <= i < j < |subtrees| ==> BranchBefore(added, subtrees[i].pattern, subtrees[j].pattern))
    && (forall k :: 0 <= k < |added| && |added[k].segs| > 1 ==> FindSubtree(subtrees, added[k].segs[0]) < |subtrees|)
  }

  /** At every node, for the routes that come through it. */
  predicate Holds(t: Tree, added: seq<Route>)
    decreases t
  {
    && LeavesHold(t.leaves, added)
    && BranchesHold(t.subtrees, added)
    && forall k :: 0 <= k < |t.subtrees| ==> Holds(t.subtrees[k], Tails(added, t.subtrees[k].pattern))
  }

  // ------------------------------------------------------------------ one more route

  /** next is old with x inserted at i. */
  predicate Inserted<T(==)>(before: seq<T>, i: nat, x: T, next: seq<T>)
  {
    && i <= |before| && |next| == |before| + 1 && next[i] == x
    && (forall j :: 0 <= j < i ==> next[j] == before[j])
    && (forall j :: i < j < |next| ==> next[j] == before[j - 1])
    && (forall j :: 0 <= j < |before| ==> next[if j < i then j else j + 1] == before[j])
  }

  lemma InsertionInserts<T>(before: seq<T>, i: nat, x: T)
    requires i <= |before|
    ensures Inserted(before, i, x, before[..i] + [x] + before[i..])
  {
  }

  lemma {:induction false} FirstLeafSpec(added: seq<Route>, seg: string, j: nat)
    ensures FirstLeaf(added, seg) < |added| ==> added[FirstLeaf(added, seg)].segs == [seg]
    ensures j < |added| && added[j].segs == [seg] ==> FirstLeaf(added, seg) <= j
  {
    if added == [] || added[0].segs == [seg] {
    } else if j == 0 {
      FirstLeafSpec(added[1..], seg, 0);
    } else {
      FirstLeafSpec(added[1..], seg, j - 1);
    }
  }

  lemma {:induction false} FirstBranchSpec(added: seq<Route>, seg: string, j: nat)
    ensures FirstBranch(added, seg) < |added| ==> GoesOn(added[FirstBranch(added, seg)], seg)
    ensures j < |added| && GoesOn(added[j], seg) ==> FirstBranch(added, seg) <= j
  {
    if added == [] || GoesOn(added[0], seg) {
    } else if j == 0 {
      FirstBranchSpec(added[1..], seg, 0);
    } else {
      FirstBranchSpec(added[1..], seg, j - 1);
    }
  }

  lemma {:induction false} FirstLeafSnoc(added: seq<Route>, r: Route, seg: string)
    ensures FirstLeaf(added + [r], seg)
         == if FirstLeaf(added, seg) < |added| then FirstLeaf(added, seg)
            else if r.segs == [seg] then |added| else |added| + 1
  {
    if added == [] {
      assert (added + [r])[1..] == [];
    } else {
      assert (added + [r])[1..] == added[1..] + [r];
      FirstLeafSnoc(added[1..], r, seg);
    }
  }

  lemma {:induction false} FirstBranchSnoc(added: seq<Route>, r: Route, seg: string)
    ensures FirstBranch(added + [r], seg)
         == if FirstBranch(added, seg) < |added| then FirstBranch(added, seg)
            else if GoesOn(r, seg) then |added| else |added| + 1
  {
    if added == [] {
      assert (added + [r])[1..] == [];
    } else {
      assert (added + [r])[1..] == added[1..] + [r];
      FirstBranchSnoc(added[1..], r, seg);
    }
  }

  lemma TailsSnoc(added: seq<Route>, r: Route, seg: string)
    ensures Tails(added + [r], seg)
         == Tails(added, seg) + if GoesOn(r, seg) then [Route(r.segs[1..], r.handle)] else []
  {
    assert (added + [r])[..|added|] == added;
  }

  /** A route that does not end here leaves the leaves as they are. */
  lemma OtherLeavesKept(leaves: seq<Leaf>, added: seq<Route>, r: Route)
    requires LeavesHold(leaves, added) && |r.segs| > 1
    ensures LeavesHold(leaves, added + [r])
  {
    hide FirstLeaf;
    forall seg ensures FirstLeaf(added, seg) < |added| ==> FirstLeaf(added + [r], seg) == FirstLeaf(added, seg) {
      FirstLeafSnoc(added, r, seg);
    }
    assert forall k :: 0 <= k < |added| ==> (added + [r])[k] == added[k];
  }

  lemma LeafAdded(leaves: seq<Leaf>, added: seq<Route>, seg: string, handle: Handle)
    requires LeavesHold(leaves, added)
    ensures LeavesHold(AddLeaf(leaves, seg, handle), added + [Route([seg], handle)])
  {
    hide FirstLeaf;
    var r := Route([seg], handle);
    var all := added + [r];
    forall x ensures FirstLeaf(added, x) < |added| ==> FirstLeaf(all, x) == FirstLeaf(added, x) {
      FirstLeafSnoc(added, r, x);
    }
    assert forall k :: 0 <= k < |added| ==> all[k] == added[k];
    FirstLeafSnoc(added, r, seg);
    if FindLeaf(leaves, seg) < |leaves| {
    } else {
      NoLeafYet(leaves, added, seg);
      var i := LeafPlace(leaves, Rank(seg));
      InsertionInserts(leaves, i, Leaf(seg, handle));
      LeafInserted(leaves, added, seg, handle, i, AddLeaf(leaves, seg, handle));
    }
  }

  lemma NoLeafYet(leaves: seq<Leaf>, added: seq<Route>, seg: string)
    requires LeavesHold(leaves, added) && FindLeaf(leaves, seg) == |leaves|
    ensures FirstLeaf(added, seg) == |added|
  {
    hide FirstLeaf;
    FirstLeafSpec(added, seg, 0);
    if FirstLeaf(added, seg) < |added| {
      assert false;
    }
  }

  lemma LeafInserted(leaves: seq<Leaf>, added: seq<Route>, seg: string, handle: Handle, i: nat, next: seq<Leaf>)
    requires LeavesHold(leaves, added) && FirstLeaf(added, seg) == |added|
    requires i == LeafPlace(leaves, Rank(seg)) && Inserted(leaves, i, Leaf(seg, handle), next)
    ensures LeavesHold(next, added + [Route([seg], handle)])
  {
    hide FirstLeaf, LeafBefore, FindLeaf, Rank;
    var r := Route([seg], handle);
    var all := added + [r];
    forall k | 0 <= k < |next|
      ensures FirstLeaf(all, next[k].pattern) < |all| && all[FirstLeaf(all, next[k].pattern)].handle == next[k].handle
    {
      LeafOfNext(leaves, added, seg, handle, i, next, k);
    }
    forall a, b | 0 <= a < b < |next|
      ensures LeafBefore(all, next[a].pattern, next[b].pattern)
    {
      LeafPairInserted(leaves, added, seg, handle, i, next, a, b);
    }
    forall k | 0 <= k < |all| && |all[k].segs| == 1
      ensures FindLeaf(next, all[k].segs[0]) < |next|
    {
      var p := all[k].segs[0];
      if k < |added| {
        assert all[k] == added[k];
        StillThere(leaves, i, Leaf(seg, handle), next, p);
      } else {
        FoundLeaf(next, p, i);
      }
    }
  }

  lemma LeafOfNext(leaves: seq<Leaf>, added: seq<Route>, seg: string, handle: Handle, i: nat, next: seq<Leaf>, k: nat)
    requires LeavesHold(leaves, added) && FirstLeaf(added, seg) == |added| && k < |next|
    requires i <= |leaves| && Inserted(leaves, i, Leaf(seg, handle), next)
    ensures var all := added + [Route([seg], handle)];
            && FirstLeaf(all, next[k].pattern) < |all| && all[FirstLeaf(all, next[k].pattern)].handle == next[k].handle
  {
    hide FirstLeaf, LeafBefore, FindLeaf, Rank;
    FirstLeafSnoc(added, Route([seg], handle), next[k].pattern);
  }

  lemma StillThere(leaves: seq<Leaf>, i: nat, leaf: Leaf, next: seq<Leaf>, p: string)
    requires i <= |leaves| && Inserted(leaves, i, leaf, next) && FindLeaf(leaves, p) < |leaves|
    ensures FindLeaf(next, p) < |next|
  {
    hide FindLeaf;
    var j := FindLeaf(leaves, p);
    FoundLeaf(next, p, if j < i then j else j + 1);
  }

  lemma FoundLeaf(leaves: seq<Leaf>, p: string, k: nat)
    requires k < |leaves| && leaves[k].pattern == p
    ensures FindLeaf(leaves, p) < |leaves|
  {
    hide FindLeaf;
  }

  lemma LeafPairInserted(leaves: seq<Leaf>, added: seq<Route>, seg: string, handle: Handle, i: nat, next: seq<Leaf>,
                         a: nat, b: nat)
    requires LeavesHold(leaves, added) && FirstLeaf(added, seg) == |added|
    requires i == LeafPlace(leaves, Rank(seg)) && Inserted(leaves, i, Leaf(seg, handle), next)
    requires a < b < |next|
    ensures LeafBefore(added + [Route([seg], handle)], next[a].pattern, next[b].pattern)
  {
    hide FirstLeaf, FindLeaf, Rank;
    var r := Route([seg], handle);
    if a == i {
      var first := leaves[i];
      assert i < b - 1 ==> LeafBefore(added, first.pattern, next[b].pattern);
    } else if b == i {
      LeafPairKept(added, r, next[a].pattern, seg);
    } else {
      var k, l := if a < i then a else a - 1, if b < i then b else b - 1;
      assert LeafBefore(added, leaves[k].pattern, leaves[l].pattern);
      LeafPairKept(added, r, leaves[k].pattern, leaves[l].pattern);
    }
  }

  /** Leaves of which the first was added before the second stay in order. */
  lemma LeafPairKept(added: seq<Route>, r: Route, a: string, b: string)
    requires FirstLeaf(added, a) < |added|
    requires if FirstLeaf(added, b) < |added| then LeafBefore(added, a, b) else Rank(a) <= Rank(b)
    ensures LeafBefore(added + [r], a, b)
  {
    hide FirstLeaf, Rank;
    FirstLeafSnoc(added, r, a);
    FirstLeafSnoc(added, r, b);
  }

  /** A route that ends here leaves the branches as they are. */
  lemma OtherBranchesKept(subtrees: seq<Tree>, added: seq<Route>, r: Route)
    requires BranchesHold(subtrees, added)
    requires |r.segs| == 1 || (|r.segs| > 1 && FindSubtree(subtrees, r.segs[0]) < |subtrees|)
    ensures BranchesHold(subtrees, added + [r])
  {
    hide FirstBranch, FindSubtree;
    forall seg ensures FirstBranch(added, seg) < |added| ==> FirstBranch(added + [r], seg) == FirstBranch(added, seg) {
      FirstBranchSnoc(added, r, seg);
    }
    assert forall k :: 0 <= k < |added| ==> (added + [r])[k] == added[k];
  }

  lemma NoBranchYet(subtrees: seq<Tree>, added: seq<Route>, seg: string)
    requires BranchesHold(subtrees, added) && FindSubtree(subtrees, seg) == |subtrees|
    ensures FirstBranch(added, seg) == |added|
  {
    hide FirstBranch;
    FirstBranchSpec(added, seg, 0);
    if FirstBranch(added, seg) < |added| {
      assert false;
    }
  }

  lemma {:induction false} NoTails(added: seq<Route>, seg: string)
    requires FirstBranch(added, seg) == |added|
    ensures Tails(added, seg) == []
    decreases |added|
  {
    if added != [] {
      var rest, last := added[..|added| - 1], added[|added| - 1];
      assert added == rest + [last];
      FirstBranchSnoc(rest, last, seg);
      NoTails(rest, seg);
    }
  }

  lemma BranchInserted(subtrees: seq<Tree>, added: seq<Route>, r: Route, sub: Tree, i: nat, next: seq<Tree>)
    requires BranchesHold(subtrees, added) && |r.segs| > 1 && sub.pattern == r.segs[0]
    requires FirstBranch(added, sub.pattern) == |added|
    requires i == SubtreePlace(subtrees, Rank(sub.pattern)) && Inserted(subtrees, i, sub, next)
    ensures BranchesHold(next, added + [r])
  {
    hide FirstBranch, BranchBefore, FindSubtree, Rank, GoesOn;
    var all := added + [r];
    forall k | 0 <= k < |next|
      ensures FirstBranch(all, next[k].pattern) < |all|
    {
      FirstBranchSnoc(added, r, next[k].pattern);
      if k == i {
        assert GoesOn(r, next[k].pattern) by {
          StartsWith(r);
        }
      }
    }
    forall a, b | 0 <= a < b < |next|
      ensures BranchBefore(all, next[a].pattern, next[b].pattern)
    {
      BranchPairInserted(subtrees, added, r, sub, i, next, a, b);
    }
    forall k | 0 <= k < |all| && |all[k].segs| > 1
      ensures FindSubtree(next, all[k].segs[0]) < |next|
    {
      StillFound(subtrees, added, r, sub, i, next, k);
    }
  }

  lemma StartsWith(r: Route)
    requires |r.segs| > 1
    ensures GoesOn(r, r.segs[0])
  {
  }

  lemma StillFound(subtrees: seq<Tree>, added: seq<Route>, r: Route, sub: Tree, i: nat, next: seq<Tree>, k: nat)
    requires BranchesHold(subtrees, added) && sub.pattern == (if |r.segs| > 0 then r.segs[0] else "")
    requires Inserted(subtrees, i, sub, next) && k < |added + [r]| && |(added + [r])[k].segs| > 1
    ensures FindSubtree(next, (added + [r])[k].segs[0]) < |next|
  {
    hide FirstBranch, BranchBefore, FindSubtree, Rank;
    var p := (added + [r])[k].segs[0];
    if k < |added| {
      assert added[k].segs[0] == p;
      var j := FindSubtree(subtrees, p);
      FoundSubtree(next, p, if j < i then j else j + 1);
    } else {
      FoundSubtree(next, p, i);
    }
  }

  lemma FoundSubtree(subtrees: seq<Tree>, p: string, k: nat)
    requires k < |subtrees| && subtrees[k].pattern == p
    ensures FindSubtree(subtrees, p) < |subtrees|
  {
    hide FindSubtree;
  }

  lemma BranchPairKept(added: seq<Route>, r: Route, a: string, b: string)
    requires FirstBranch(added, a) < |added|
    requires if FirstBranch(added, b) < |added| then BranchBefore(added, a, b) else Rank(a) <= Rank(b)
    ensures BranchBefore(added + [r], a, b)
  {
    hide FirstBranch, Rank;
    FirstBranchSnoc(added, r, a);
    FirstBranchSnoc(added, r, b);
  }

  lemma BranchPairInserted(subtrees: seq<Tree>, added: seq<Route>, r: Route, sub: Tree, i: nat, next: seq<Tree>,
                           a: nat, b: nat)
    requires BranchesHold(subtrees, added) && |r.segs| > 1 && sub.pattern == r.segs[0]
    requires FirstBranch(added, sub.pattern) == |added|
    requires i == SubtreePlace(subtrees, Rank(sub.pattern)) && Inserted(subtrees, i, sub, next)
    requires a < b < |next|
    ensures BranchBefore(added + [r], next[a].pattern, next[b].pattern)
  {
    hide FirstBranch, FindSubtree, Rank;
    if a == i {
      var first := subtrees[i];
      assert i < b - 1 ==> BranchBefore(added, first.pattern, next[b].pattern);
    } else if b == i {
      BranchPairKept(added, r, next[a].pattern, sub.pattern);
    } else {
      var k, l := if a < i then a else a - 1, if b < i then b else b - 1;
      assert BranchBefore(added, subtrees[k].pattern, subtrees[l].pattern);
      BranchPairKept(added, r, subtrees[k].pattern, subtrees[l].pattern);
    }
  }

  lemma SamePatterns(a: seq<Tree>, b: seq<Tree>, added: seq<Route>)
    requires BranchesHold(a, added) && |a| == |b| && forall i :: 0 <= i < |a| ==> a[i].pattern == b[i].pattern
    ensures BranchesHold(b, added)
  {
    forall k | 0 <= k < |added| && |added[k].segs| > 1
      ensures FindSubtree(b, added[k].segs[0]) < |b|
    {
      assert b[FindSubtree(a, added[k].segs[0])].pattern == added[k].segs[0];
    }
  }

  lemma BranchesDiffer(subtrees: seq<Tree>, added: seq<Route>, j: nat, k: nat)
    requires BranchesHold(subtrees, added) && j < |subtrees| && k < |subtrees| && j != k
    ensures subtrees[j].pattern != subtrees[k].pattern
  {
    var a, b := if j < k then j else k, if j < k then k else j;
    assert BranchBefore(added, subtrees[a].pattern, subtrees[b].pattern);
  }

  lemma BranchReplaced(t: Tree, added: seq<Route>, r: Route, k: nat, sub: Tree)
    requires Holds(t, added) && |r.segs| > 1 && k == FindSubtree(t.subtrees, r.segs[0]) < |t.subtrees|
    requires BranchesHold(t.subtrees, added + [r])
    requires sub.pattern == r.segs[0] && Holds(sub, Tails(added, r.segs[0]) + [Route(r.segs[1..], r.handle)])
    ensures var next := t.subtrees[k := sub];
            && BranchesHold(next, added + [r])
            && forall j :: 0 <= j < |next| ==> Holds(next[j], Tails(added + [r], next[j].pattern))
  {
    hide LeavesHold, BranchesHold;
    var next := t.subtrees[k := sub];
    SamePatterns(t.subtrees, next, added + [r]);
    forall j | 0 <= j < |next|
      ensures Holds(next[j], Tails(added + [r], next[j].pattern))
    {
      TailsSnoc(added, r, next[j].pattern);
      if j != k {
        BranchesDiffer(t.subtrees, added, j, k);
        assert Tails(added, next[j].pattern) + [] == Tails(added, next[j].pattern);
      }
    }
  }

  lemma BranchIsNew(subtrees: seq<Tree>, added: seq<Route>, r: Route, sub: Tree, i: nat, next: seq<Tree>)
    requires forall k :: 0 <= k < |subtrees| ==> Holds(subtrees[k], Tails(added, subtrees[k].pattern))
    requires forall k :: 0 <= k < |subtrees| ==> subtrees[k].pattern != sub.pattern
    requires |r.segs| > 1 && sub.pattern == r.segs[0] && Inserted(subtrees, i, sub, next)
    requires Holds(sub, [Route(r.segs[1..], r.handle)]) && Tails(added, sub.pattern) == []
    ensures forall j :: 0 <= j < |next| ==> Holds(next[j], Tails(added + [r], next[j].pattern))
  {
    hide Holds;
    forall j | 0 <= j < |next|
      ensures Holds(next[j], Tails(added + [r], next[j].pattern))
    {
      var p := next[j].pattern;
      TailsSnoc(added, r, p);
      assert Tails(added, p) + [] == Tails(added, p);
      assert [] + [Route(r.segs[1..], r.handle)] == [Route(r.segs[1..], r.handle)];
    }
  }

  /** Adding a route keeps what the tree holds in step with what was added. */
  lemma {:induction false} AddHolds(t: Tree, added: seq<Route>, r: Route)
    requires Holds(t, added) && r.segs != []
    ensures Holds(AddRoute(t, r.segs, r.handle), added + [r])
    decreases |r.segs|
  {
    hide LeavesHold, BranchesHold, AddLeaf, FirstLeaf, FirstBranch;
    var all, segs := added + [r], r.segs;
    forall seg ensures !GoesOn(r, seg) ==> Tails(all, seg) == Tails(added, seg) {
      TailsSnoc(added, r, seg);
      assert Tails(added, seg) + [] == Tails(added, seg);
    }
    if |segs| == 1 {
      assert r == Route([segs[0]], r.handle);
      LeafAdded(t.leaves, added, segs[0], r.handle);
      OtherBranchesKept(t.subtrees, added, r);
    } else {
      OtherLeavesKept(t.leaves, added, r);
      TailsSnoc(added, r, segs[0]);
      var tail := Route(segs[1..], r.handle);
      var k := FindSubtree(t.subtrees, segs[0]);
      if k < |t.subtrees| {
        AddHolds(t.subtrees[k], Tails(added, segs[0]), tail);
        OtherBranchesKept(t.subtrees, added, r);
        BranchReplaced(t, added, r, k, AddRoute(t.subtrees[k], segs[1..], r.handle));
      } else {
        NoBranchYet(t.subtrees, added, segs[0]);
        NoTails(added, segs[0]);
        EmptyHolds(segs[0]);
        AddHolds(Tree(segs[0], [], []), [], tail);
        var sub := AddRoute(Tree(segs[0], [], []), segs[1..], r.handle);
        assert [] + [tail] == [tail];
        var i := SubtreePlace(t.subtrees, Rank(segs[0]));
        var next := t.subtrees[..i] + [sub] + t.subtrees[i..];
        InsertionInserts(t.subtrees, i, sub);
        BranchInserted(t.subtrees, added, r, sub, i, next);
        BranchIsNew(t.subtrees, added, r, sub, i, next);
      }
    }
  }

  lemma EmptyHolds(pattern: string)
    ensures Holds(Tree(pattern, [], []), [])
  {
  }

  /** The tree built from any sequence of routes holds them. */
  lemma {:induction false} BuiltHolds(added: seq<Route>)
    requires Routes(added)
    ensures Holds(Built(added), added)
    decreases |added|
  {
    hide Holds;
    if added == [] {
      EmptyHolds("");
    } else {
      var rest, last := added[..|added| - 1], added[|added| - 1];
      assert added == rest + [last];
      BuiltHolds(rest);
      AddHolds(Built(rest), rest, last);
    }
  }

  // ------------------------------------------------------------------ routes below a node

  /** A longer route was added exactly when its tail is among the tails, and with the same handle. */
  lemma {:induction false} TailsHave(added: seq<Route>, seg: string, tail: seq<string>)
    requires tail != []
    ensures Has(added, [seg] + tail) <==> Has(Tails(added, seg), tail)
    ensures Has(added, [seg] + tail) ==> HandleOf(added, [seg] + tail) == HandleOf(Tails(added, seg), tail)
    decreases |added|
  {
    var route := [seg] + tail;
    assert route[1..] == tail && route[0] == seg;
    if added != [] {
      var rest, last := added[..|added| - 1], added[|added| - 1];
      assert added == rest + [last];
      TailsHave(rest, seg, tail);
      HasSnoc(rest, last, route);
      var tails := Tails(rest, seg);
      if GoesOn(last, seg) {
        assert last.segs == [seg] + last.segs[1..];
        HasSnoc(tails, Route(last.segs[1..], last.handle), tail);
      } else {
        assert tails + [] == tails;
      }
    }
  }

  lemma HasSnoc(added: seq<Route>, r: Route, route: seq<string>)
    ensures Has(added + [r], route) <==> Has(added, route) || r.segs == route
    ensures Has(added + [r], route) ==>
              HandleOf(added + [r], route) == if Has(added, route) then HandleOf(added, route) else r.handle
  {
    var all := added + [r];
    assert all[..|all| - 1] == added && all[|added|] == r;
    assert forall i :: 0 <= i < |added| ==> all[i] == added[i];
    if Has(added, route) {
      var i :| 0 <= i < |added| && added[i].segs == route;
      assert all[i].segs == route;
    }
  }

  lemma {:induction false} LeafHandle(added: seq<Route>, seg: string)
    requires FirstLeaf(added, seg) < |added|
    ensures Has(added, [seg]) && HandleOf(added, [seg]) == added[FirstLeaf(added, seg)].handle
    decreases |added|
  {
    hide FirstLeaf;
    FirstLeafSpec(added, seg, 0);
    var rest, last := added[..|added| - 1], added[|added| - 1];
    assert added == rest + [last];
    FirstLeafSnoc(rest, last, seg);
    HasSnoc(rest, last, [seg]);
    if FirstLeaf(rest, seg) < |rest| {
      LeafHandle(rest, seg);
    } else {
      NotHasLeaf(rest, seg);
    }
  }

  lemma NotHasLeaf(added: seq<Route>, seg: string)
    requires FirstLeaf(added, seg) == |added|
    ensures !Has(added, [seg])
  {
    hide FirstLeaf;
    forall i | 0 <= i < |added|
      ensures added[i].segs != [seg]
    {
      FirstLeafSpec(added, seg, i);
    }
  }

  // ------------------------------------------------------------------ matching

  /** What matching should return: the best route's handle and parameters, or nothing when none matches. */
  ghost predicate Right(added: seq<Route>, url: seq<string>, level: nat, hit: Option<Hit>, p: seq<string>)
  {
    match hit
    case None => forall q :: Has(added, q) && q != [] ==> !Matches(q, url)
    case Some(h) => Best(added, url, p) && h == Hit(HandleOf(added, p), ParamsOf(p, url, level))
  }

  /** The first leaf that fits. */
  lemma {:induction false} FirstFit(leaves: seq<Leaf>, url: string, level: nat) returns (k: nat)
    ensures k <= |leaves| && forall j :: 0 <= j < k ==> !Fits(leaves[j].pattern, url)
    ensures MatchLeaves(leaves, url, level)
         == if k == |leaves| then None else Some(Hit(leaves[k].handle, LeafParams(leaves[k].pattern, url, level)))
    ensures k < |leaves| ==> Fits(leaves[k].pattern, url)
  {
    if leaves == [] || Fits(leaves[0].pattern, url) {
      k := 0;
    } else {
      var rest := FirstFit(leaves[1..], url, level);
      k := rest + 1;
    }
  }

  /** Every route that matches a single segment is a leaf. */
  lemma MatchingLeaf(leaves: seq<Leaf>, added: seq<Route>, q: seq<string>) returns (j: nat)
    requires LeavesHold(leaves, added) && Has(added, q) && |q| == 1
    ensures j < |leaves| && leaves[j].pattern == q[0]
  {
    hide FindLeaf;
    var i :| 0 <= i < |added| && added[i].segs == q;
    j := FindLeaf(leaves, q[0]);
  }

  lemma LeafMatch(t: Tree, added: seq<Route>, url: string, level: nat) returns (p: seq<string>)
    requires LeavesHold(t.leaves, added)
    ensures Right(added, [url], level, MatchTree(t, [url], level), p)
  {
    hide FirstLeaf, FindLeaf, LeafBefore;
    var k := FirstFit(t.leaves, url, level);
    p := [];
    if k < |t.leaves| {
      p := [t.leaves[k].pattern];
      LeafHandle(added, t.leaves[k].pattern);
    }
    forall q | Has(added, q) && q != [] && Matches(q, [url])
      ensures k < |t.leaves| && (q != p ==> Precedes(added, p, q))
    {
      var j := MatchingLeaf(t.leaves, added, q);
      assert q == [q[0]];
    }
  }

  /** The first subtree that fits and below which there is a match. */
  lemma {:induction false} FirstBelow(subtrees: seq<Tree>, url: seq<string>, level: nat) returns (k: nat)
    requires |url| > 1
    ensures k <= |subtrees|
    ensures forall j :: 0 <= j < k ==>
              !Fits(subtrees[j].pattern, url[0]) || MatchTree(subtrees[j], url[1..], Below(subtrees[j].pattern, level)) == None
    ensures k == |subtrees| ==> MatchSubtrees(subtrees, url, level) == None
    ensures k < |subtrees| ==>
              && Fits(subtrees[k].pattern, url[0])
              && MatchTree(subtrees[k], url[1..], Below(subtrees[k].pattern, level)).Some?
              && var below := MatchTree(subtrees[k], url[1..], Below(subtrees[k].pattern, level)).value;
                 MatchSubtrees(subtrees, url, level)
                 == Some(below.(params := SubtreeParams(subtrees[k].pattern, url[0], level, below.params)))
    decreases |subtrees|
  {
    hide MatchTree;
    if subtrees == [] {
      k := 0;
    } else if Fits(subtrees[0].pattern, url[0])
              && MatchTree(subtrees[0], url[1..], Below(subtrees[0].pattern, level)).Some? {
      k := 0;
    } else {
      var rest := FirstBelow(subtrees[1..], url, level);
      k := rest + 1;
    }
  }

  lemma MatchingBranch(subtrees: seq<Tree>, added: seq<Route>, q: seq<string>) returns (j: nat)
    requires BranchesHold(subtrees, added) && Has(added, q) && |q| > 1
    ensures j < |subtrees| && subtrees[j].pattern == q[0] && Has(Tails(added, q[0]), q[1..])
  {
    hide FindSubtree;
    var i :| 0 <= i < |added| && added[i].segs == q;
    j := FindSubtree(subtrees, q[0]);
    assert q == [q[0]] + q[1..];
    TailsHave(added, q[0], q[1..]);
  }

  /** Matching is right at every node, for any URL. */
  lemma {:induction false} MatchIsRight(t: Tree, added: seq<Route>, url: seq<string>, level: nat) returns (p: seq<string>)
    requires Holds(t, added) && url != []
    ensures Right(added, url, level, MatchTree(t, url, level), p)
    decreases |url|
  {
    hide LeavesHold, BranchesHold, Right;
    if |url| == 1 {
      assert url == [url[0]];
      p := LeafMatch(t, added, url[0], level);
    } else {
      var k := FirstBelow(t.subtrees, url, level);
      forall j | 0 <= j < k
        ensures NothingBelow(added, t.subtrees[j].pattern, url)
      {
        if Fits(t.subtrees[j].pattern, url[0]) {
          var none := MatchIsRight(t.subtrees[j], Tails(added, t.subtrees[j].pattern), url[1..], Below(t.subtrees[j].pattern, level));
          NothingThere(added, t.subtrees[j].pattern, url, Below(t.subtrees[j].pattern, level), none);
        }
      }
      if k < |t.subtrees| {
        var seg := t.subtrees[k].pattern;
        var tail := MatchIsRight(t.subtrees[k], Tails(added, seg), url[1..], Below(seg, level));
        p := [seg] + tail;
        BranchMatch(t.subtrees, added, url, level, k, tail, MatchTree(t.subtrees[k], url[1..], Below(seg, level)).value);
      } else {
        p := RestMatch(t, added, url, level);
      }
    }
  }

  /** No route that goes on after this segment matches. */
  ghost predicate NothingBelow(added: seq<Route>, seg: string, url: seq<string>)
    requires |url| > 1
  {
    Fits(seg, url[0]) ==> forall q :: Has(Tails(added, seg), q) && q != [] ==> !Matches(q, url[1..])
  }

  lemma NothingThere(added: seq<Route>, seg: string, url: seq<string>, level: nat, none: seq<string>)
    requires |url| > 1 && Right(Tails(added, seg), url[1..], level, None, none)
    ensures NothingBelow(added, seg, url)
  {
  }

  lemma BranchMatch(subtrees: seq<Tree>, added: seq<Route>, url: seq<string>, level: nat, k: nat, tail: seq<string>, below: Hit)
    requires BranchesHold(subtrees, added) && k < |subtrees| && |url| > 1
    requires Fits(subtrees[k].pattern, url[0])
    requires Right(Tails(added, subtrees[k].pattern), url[1..], Below(subtrees[k].pattern, level), Some(below), tail)
    requires forall j :: 0 <= j < k ==> NothingBelow(added, subtrees[j].pattern, url)
    ensures var seg := subtrees[k].pattern;
            Right(added, url, level, Some(below.(params := SubtreeParams(seg, url[0], level, below.params))), [seg] + tail)
  {
    hide FirstBranch, FindSubtree;
    var seg := subtrees[k].pattern;
    var p := [seg] + tail;
    assert p[1..] == tail;
    TailsHave(added, seg, tail);
    forall q | Has(added, q) && q != [] && q != p && Matches(q, url)
      ensures Precedes(added, p, q)
    {
      if |q| > 1 {
        var j := MatchingBranch(subtrees, added, q);
        assert q == [q[0]] + q[1..];
        BranchesInOrder(subtrees, added, url, q, j, k);
      }
    }
  }

  lemma BranchesInOrder(subtrees: seq<Tree>, added: seq<Route>, url: seq<string>, q: seq<string>, j: nat, k: nat)
    requires BranchesHold(subtrees, added) && j < |subtrees| && k < |subtrees| && |url| > 1 && |q| > 1
    requires q[0] == subtrees[j].pattern && Has(Tails(added, q[0]), q[1..]) && Matches(q, url)
    requires forall j :: 0 <= j < k ==> NothingBelow(added, subtrees[j].pattern, url)
    ensures j >= k
    ensures j > k ==> BranchBefore(added, subtrees[k].pattern, q[0]) && subtrees[k].pattern != q[0]
  {
    hide FirstBranch, FindSubtree;
    if j < k {
      assert false;
    }
    if j > k {
      BranchesDiffer(subtrees, added, j, k);
    }
  }

  /** When no branch matches, only a final "*" can. */
  lemma RestMatch(t: Tree, added: seq<Route>, url: seq<string>, level: nat) returns (p: seq<string>)
    requires LeavesHold(t.leaves, added) && BranchesHold(t.subtrees, added) && |url| > 1
    requires forall j :: 0 <= j < |t.subtrees| ==> NothingBelow(added, t.subtrees[j].pattern, url)
    ensures Right(added, url, level, MatchRest(t.leaves, url, level), p)
  {
    hide FirstLeaf, FindLeaf;
    p := [];
    var n := |t.leaves|;
    if n > 0 && t.leaves[n - 1].pattern == "*" {
      p := ["*"];
      LeafHandle(added, "*");
    }
    forall q | Has(added, q) && q != [] && Matches(q, url)
      ensures p != [] && q == p
    {
      OnlyTheRest(t, added, url, q);
      assert q == [q[0]];
    }
  }

  lemma OnlyTheRest(t: Tree, added: seq<Route>, url: seq<string>, q: seq<string>)
    requires LeavesHold(t.leaves, added) && BranchesHold(t.subtrees, added) && |url| > 1
    requires forall j :: 0 <= j < |t.subtrees| ==> NothingBelow(added, t.subtrees[j].pattern, url)
    requires Has(added, q) && q != [] && Matches(q, url)
    ensures |q| == 1 && q[0] == "*"
    ensures t.leaves != [] && t.leaves[|t.leaves| - 1].pattern == "*"
  {
    hide FirstLeaf, FindLeaf, FirstBranch, FindSubtree;
    if |q| > 1 {
      var j := MatchingBranch(t.subtrees, added, q);
      assert false;
    } else {
      var j := MatchingLeaf(t.leaves, added, q);
      var last := |t.leaves| - 1;
      if j < last {
        assert LeafBefore(added, t.leaves[j].pattern, t.leaves[last].pattern);
        LastRank(t.leaves[last].pattern);
      }
    }
  }

  lemma LastRank(pattern: string)
    ensures Rank(pattern) <= Rank("*")
    ensures Rank(pattern) == Rank("*") ==> pattern == "*"
  {
  }

  /** The route tree agrees with its routes: for any routes added in any order and any URL, Match
      succeeds exactly when some route matches, and returns the handle and the parameters of the first
      one in segment-by-segment order. */
  lemma TreeAgreesWithRoutes(added: seq<Route>, url: seq<string>) returns (p: seq<string>)
    requires Routes(added) && AllSupported(added) && url != []
    ensures MatchTree(Built(added), url, 0).Some? <==> exists q :: Has(added, q) && q != [] && Matches(q, url)
    ensures MatchTree(Built(added), url, 0).Some? ==>
              Best(added, url, p)
              && MatchTree(Built(added), url, 0).value == Hit(HandleOf(added, p), ParamsOf(p, url, 0))
  {
    hide Holds, MatchTree, Built;
    BuiltHolds(added);
    p := MatchIsRight(Built(added), added, url, 0);
  }
}
