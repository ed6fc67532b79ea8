/**
 The route tree (macaron.v1/tree.go) for static, ":name" and "*" segments: adding routes and matching
 URLs against them, with backtracking.
 */
module RouteTree {
  import opened Base

  type Handle = int

  /** A leaf: the last segment of a route. */
  datatype Leaf = Leaf(pattern: string, handle: Handle)

  /** A node: its own segment, the nodes below it and the routes ending at it, each ordered by type. */
  datatype Tree = Tree(pattern: string, subtrees: seq<Tree>, leaves: seq<Leaf>)

  datatype PatternType = Static | Holder | MatchAll

  predicate AlphaNumeric(c: char)
  {
    'a' <= c <= 'z' || 'A' <= c <= 'Z' || '0' <= c <= '9'
  }

  /** checkPattern for the segments of this model; the others are regular expressions, "*.*" and
      optional segments. */
  predicate Supported(segment: string)
  {
    || segment == "*"
    || (|segment| > 1 && segment[0] == ':' && forall i :: 1 <= i < |segment| ==> AlphaNumeric(segment[i]))
    || (':' !in segment && '(' !in segment && segment != "*.*" && (segment == "" || segment[0] != '?'))
  }

  function TypeOf(segment: string): PatternType
  {
    if segment == "*" then MatchAll else if segment != "" && segment[0] == ':' then Holder else Static
  }

  function Rank(segment: string): nat
  {
    match TypeOf(segment)
    case Static => 0
    case Holder => 3
    case MatchAll => 4
  }

  // ------------------------------------------------------------------ segments

  const SLASH: char := '/'

  function IndexOf(s: string, c: char): (i: int)
    ensures -1 <= i < |s|
    ensures i >= 0 ==> s[i] == c
  {
    if s == "" then -1
    else if s[0] == c then 0
    else if IndexOf(s[1..], c) == -1 then -1 else 1 + IndexOf(s[1..], c)
  }

  function TrimPrefix(s: string): string
  {
    if s != "" && s[0] == SLASH then s[1..] else s
  }

  function TrimSuffix(s: string): string
  {
    if s != "" && s[|s| - 1] == SLASH then s[..|s| - 1] else s
  }

  /** The segments of a pattern: a slash right after a slash is dropped, once at each level. */
  function PatternSegments(pattern: string): (segs: seq<string>)
    ensures segs != []
    decreases |pattern|
  {
    var p := TrimPrefix(pattern);
    var i := IndexOf(p, SLASH);
    if i == -1 then [p] else [p[..i]] + PatternSegments(p[i + 1..])
  }

  /** The segments of a URL. */
  function UrlSegments(url: string): (segs: seq<string>)
    ensures segs != []
    decreases |url|
  {
    var i := IndexOf(url, SLASH);
    if i == -1 then [url] else [url[..i]] + UrlSegments(url[i + 1..])
  }

  function JoinSegments(segs: seq<string>): string
    requires segs != []
  {
    if |segs| == 1 then segs[0] else segs[0] + [SLASH] + JoinSegments(segs[1..])
  }

  lemma {:induction false} JoinUrlSegments(url: string)
    ensures JoinSegments(UrlSegments(url)) == url
    decreases |url|
  {
    var i := IndexOf(url, SLASH);
    if i >= 0 {
      JoinUrlSegments(url[i + 1..]);
      assert url == url[..i] + [SLASH] + url[i + 1..];
      assert UrlSegments(url)[1..] == UrlSegments(url[i + 1..]);
    }
  }

  // ------------------------------------------------------------------ adding

  function FindLeaf(leaves: seq<Leaf>, pattern: string): (i: nat)
    ensures i <= |leaves|
    ensures i < |leaves| ==> leaves[i].pattern == pattern
    ensures forall j :: 0 <= j < i ==> leaves[j].pattern != pattern
  {
    if leaves == [] || leaves[0].pattern == pattern then 0 else 1 + FindLeaf(leaves[1..], pattern)
  }

  /** The first leaf of a later type. */
  function LeafPlace(leaves: seq<Leaf>, rank: nat): (i: nat)
    ensures i <= |leaves|
    ensures i < |leaves| ==> rank < Rank(leaves[i].pattern)
    ensures forall j :: 0 <= j < i ==> Rank(leaves[j].pattern) <= rank
  {
    if leaves == [] || rank < Rank(leaves[0].pattern) then 0 else 1 + LeafPlace(leaves[1..], rank)
  }

  function FindSubtree(subtrees: seq<Tree>, pattern: string): (i: nat)
    ensures i <= |subtrees|
    ensures i < |subtrees| ==> subtrees[i].pattern == pattern
    ensures forall j :: 0 <= j < i ==> subtrees[j].pattern != pattern
  {
    if subtrees == [] || subtrees[0].pattern == pattern then 0 else 1 + FindSubtree(subtrees[1..], pattern)
  }

  function SubtreePlace(subtrees: seq<Tree>, rank: nat): (i: nat)
    ensures i <= |subtrees|
    ensures i < |subtrees| ==> rank < Rank(subtrees[i].pattern)
    ensures forall j :: 0 <= j < i ==> Rank(subtrees[j].pattern) <= rank
  {
    if subtrees == [] || rank < Rank(subtrees[0].pattern) then 0 else 1 + SubtreePlace(subtrees[1..], rank)
  }

  function AddLeaf(leaves: seq<Leaf>, pattern: string, handle: Handle): seq<Leaf>
  {
    if FindLeaf(leaves, pattern) < |leaves| then leaves
    else
      var i := LeafPlace(leaves, Rank(pattern));
      leaves[..i] + [Leaf(pattern, handle)] + leaves[i..]
  }

  /** The tree after adding a route, by its segments. */
  function AddRoute(t: Tree, segs: seq<string>, handle: Handle): (r: Tree)
    requires segs != []
    ensures r.pattern == t.pattern
    decreases |segs|
  {
    if |segs| == 1 then t.(leaves := AddLeaf(t.leaves, segs[0], handle))
    else
      var k := FindSubtree(t.subtrees, segs[0]);
      if k < |t.subtrees| then t.(subtrees := t.subtrees[k := AddRoute(t.subtrees[k], segs[1..], handle)])
      else
        var i := SubtreePlace(t.subtrees, Rank(segs[0]));
        t.(subtrees := t.subtrees[..i] + [AddRoute(Tree(segs[0], [], []), segs[1..], handle)] + t.subtrees[i..])
  }

  /** addLeaf. */
  method AddLeafTo(t: Tree, pattern: string, handle: Handle) returns (r: Tree)
    ensures r == AddRoute(t, [pattern], handle)
  {
    var i := 0;
    while i < |t.leaves|
      invariant 0 <= i <= |t.leaves|
      invariant forall j :: 0 <= j < i ==> t.leaves[j].pattern != pattern
    {
      if t.leaves[i].pattern == pattern {
        return t;
      }
      i := i + 1;
    }
    i := 0;
    while i < |t.leaves| && !(Rank(pattern) < Rank(t.leaves[i].pattern))
      invariant 0 <= i <= |t.leaves|
      invariant forall j :: 0 <= j < i ==> Rank(t.leaves[j].pattern) <= Rank(pattern)
    {
      i := i + 1;
    }
    r := t.(leaves := t.leaves[..i] + [Leaf(pattern, handle)] + t.leaves[i..]);
  }

  /** addSubtree. */
  method AddSubtree(t: Tree, segment: string, pattern: string, handle: Handle) returns (r: Tree)
    ensures r == AddRoute(t, [segment] + PatternSegments(pattern), handle)
    decreases |pattern|, 1
  {
    hide AddRoute, PatternSegments, Rank;
    ghost var rest := PatternSegments(pattern);
    var i := 0;
    while i < |t.subtrees|
      invariant 0 <= i <= |t.subtrees|
      invariant forall j :: 0 <= j < i ==> t.subtrees[j].pattern != segment
    {
      if t.subtrees[i].pattern == segment {
        RouteGoesOn(t, segment, rest, handle, i);
        var subtree := AddNextSegment(t.subtrees[i], pattern, handle);
        return t.(subtrees := t.subtrees[i := subtree]);
      }
      i := i + 1;
    }
    var subtree := Tree(segment, [], []);
    i := 0;
    while i < |t.subtrees| && !(Rank(segment) < Rank(t.subtrees[i].pattern))
      invariant 0 <= i <= |t.subtrees|
      invariant forall j :: 0 <= j < i ==> Rank(t.subtrees[j].pattern) <= Rank(segment)
    {
      i := i + 1;
    }
    RouteIsNew(t, segment, rest, handle, i);
    subtree := AddNextSegment(subtree, pattern, handle);
    r := t.(subtrees := t.subtrees[..i] + [subtree] + t.subtrees[i..]);
  }

  /** A route whose first segment has a subtree goes on in it. */
  lemma RouteGoesOn(t: Tree, segment: string, rest: seq<string>, handle: Handle, k: nat)
    requires rest != [] && k < |t.subtrees| && t.subtrees[k].pattern == segment
    requires forall j :: 0 <= j < k ==> t.subtrees[j].pattern != segment
    ensures AddRoute(t, [segment] + rest, handle) == t.(subtrees := t.subtrees[k := AddRoute(t.subtrees[k], rest, handle)])
  {
    assert ([segment] + rest)[1..] == rest;
    assert FindSubtree(t.subtrees, segment) == k;
  }

  /** A route whose first segment has no subtree gets one behind those of its rank. */
  lemma RouteIsNew(t: Tree, segment: string, rest: seq<string>, handle: Handle, i: nat)
    requires rest != [] && i <= |t.subtrees| && (forall s <- t.subtrees :: s.pattern != segment)
    requires forall j :: 0 <= j < i ==> Rank(t.subtrees[j].pattern) <= Rank(segment)
    requires i < |t.subtrees| ==> Rank(segment) < Rank(t.subtrees[i].pattern)
    ensures AddRoute(t, [segment] + rest, handle)
         == t.(subtrees := t.subtrees[..i] + [AddRoute(Tree(segment, [], []), rest, handle)] + t.subtrees[i..])
  {
    hide Rank;
    assert ([segment] + rest)[1..] == rest;
    assert SubtreePlace(t.subtrees, Rank(segment)) == i;
  }

  /** addNextSegment. */
  method AddNextSegment(t: Tree, pattern: string, handle: Handle) returns (r: Tree)
    ensures r == AddRoute(t, PatternSegments(pattern), handle)
    decreases |pattern|, 0
  {
    var p := TrimPrefix(pattern);
    var i := IndexOf(p, SLASH);
    if i == -1 {
      r := AddLeafTo(t, p, handle);
    } else {
      r := AddSubtree(t, p[..i], p[i + 1..], handle);
    }
  }

  /** Add. */
  method Add(t: Tree, pattern: string, handle: Handle) returns (r: Tree)
    ensures r == AddRoute(t, PatternSegments(TrimSuffix(pattern)), handle)
  {
    r := AddNextSegment(t, TrimSuffix(pattern), handle);
  }

  // ------------------------------------------------------------------ matching

  /** The keys of the match's parameters: a holder's name, "*", or "*" with its level. */
  datatype Key = Named(name: string) | Star | StarAt(level: nat)

  datatype Hit = Hit(handle: Handle, params: map<Key, string>)

  predicate Fits(pattern: string, segment: string)
  {
    TypeOf(pattern) == Static ==> pattern == segment
  }

  function LeafParams(pattern: string, url: string, level: nat): map<Key, string>
  {
    match TypeOf(pattern)
    case Static => map[]
    case Holder => map[Named(pattern) := url]
    case MatchAll => map[Star := url, StarAt(level) := url]
  }

  function SubtreeParams(pattern: string, segment: string, level: nat, below: map<Key, string>): map<Key, string>
  {
    match TypeOf(pattern)
    case Static => below
    case Holder => below[Named(pattern) := segment]
    case MatchAll => below[StarAt(level) := segment]
  }

  function Below(pattern: string, level: nat): nat
  {
    if TypeOf(pattern) == Static then level else level + 1
  }

  function MatchLeaves(leaves: seq<Leaf>, url: string, level: nat): Option<Hit>
  {
    if leaves == [] then None
    else if Fits(leaves[0].pattern, url) then Some(Hit(leaves[0].handle, LeafParams(leaves[0].pattern, url, level)))
    else MatchLeaves(leaves[1..], url, level)
  }

  function MatchSubtrees(subtrees: seq<Tree>, url: seq<string>, level: nat): Option<Hit>
    requires |url| > 1
    decreases |url|, 0, |subtrees|
  {
    if subtrees == [] then None
    else
      var below := if Fits(subtrees[0].pattern, url[0])
                   then MatchTree(subtrees[0], url[1..], Below(subtrees[0].pattern, level)) else None;
      if below.Some? then Some(below.value.(params := SubtreeParams(subtrees[0].pattern, url[0], level, below.value.params)))
      else MatchSubtrees(subtrees[1..], url, level)
  }

  /** The match-all leaf that takes all the remaining segments, if it is the last leaf. */
  function MatchRest(leaves: seq<Leaf>, url: seq<string>, level: nat): Option<Hit>
    requires url != []
  {
    if leaves != [] && TypeOf(leaves[|leaves| - 1].pattern) == MatchAll then
      Some(Hit(leaves[|leaves| - 1].handle, LeafParams(leaves[|leaves| - 1].pattern, JoinSegments(url), level)))
    else None
  }

  /** matchNextSegment on the segments of a URL. */
  function MatchTree(t: Tree, url: seq<string>, level: nat): Option<Hit>
    requires url != []
    decreases |url|
  {
    if |url| == 1 then MatchLeaves(t.leaves, url[0], level)
    else
      var hit := MatchSubtrees(t.subtrees, url, level);
      if hit.Some? then hit else MatchRest(t.leaves, url, level)
  }

  /** matchLeaf; params is the map the source fills. */
  method MatchLeaf(t: Tree, level: nat, url: string, params: map<Key, string>)
    returns (handle: Option<Handle>, filled: map<Key, string>)
    ensures match MatchLeaves(t.leaves, url, level)
            case None => handle == None && filled == params
            case Some(hit) => handle == Some(hit.handle) && filled == params + hit.params
  {
    for i := 0 to |t.leaves|
      invariant MatchLeaves(t.leaves[i..], url, level) == MatchLeaves(t.leaves, url, level)
    {
      var leaf := t.leaves[i];
      assert t.leaves[i..][0] == leaf && t.leaves[i..][1..] == t.leaves[i + 1..];
      match TypeOf(leaf.pattern) {
        case Static =>
          if leaf.pattern == url {
            assert params + map[] == params;
            return Some(leaf.handle), params;
          }
        case Holder =>
          return Some(leaf.handle), params[Named(leaf.pattern) := url];
        case MatchAll =>
          return Some(leaf.handle), params[Star := url][StarAt(level) := url];
      }
    }
    return None, params;
  }

  /** matchSubtree. A holder and a match-all are only recorded once the match below has succeeded. */
  method MatchSubtree(t: Tree, level: nat, segment: string, url: string, params: map<Key, string>)
    returns (handle: Option<Handle>, filled: map<Key, string>)
    ensures match MatchTree(t, [segment] + UrlSegments(url), level)
            case None => handle == None && filled == params
            case Some(hit) => handle == Some(hit.handle) && filled == params + hit.params
    decreases |url|, 1
  {
    ghost var segs := [segment] + UrlSegments(url);
    assert segs[1..] == UrlSegments(url);
    for i := 0 to |t.subtrees|
      invariant MatchSubtrees(t.subtrees[i..], segs, level) == MatchSubtrees(t.subtrees, segs, level)
    {
      var subtree := t.subtrees[i];
      assert t.subtrees[i..][0] == subtree && t.subtrees[i..][1..] == t.subtrees[i + 1..];
      match TypeOf(subtree.pattern) {
        case Static =>
          if subtree.pattern == segment {
            handle, filled := MatchNextSegment(subtree, level, url, params);
            if handle.Some? {
              return;
            }
          }
        case Holder =>
          handle, filled := MatchNextSegment(subtree, level + 1, url, params);
          if handle.Some? {
            filled := filled[Named(subtree.pattern) := segment];
            return;
          }
        case MatchAll =>
          handle, filled := MatchNextSegment(subtree, level + 1, url, params);
          if handle.Some? {
            filled := filled[StarAt(level) := segment];
            return;
          }
      }
    }
    if |t.leaves| > 0 {
      var leaf := t.leaves[|t.leaves| - 1];
      if TypeOf(leaf.pattern) == MatchAll {
        var rest := segment + [SLASH] + url;
        JoinUrlSegments(url);
        assert JoinSegments(segs) == rest;
        return Some(leaf.handle), params[Star := rest][StarAt(level) := rest];
      }
    }
    return None, params;
  }

  /** matchNextSegment. */
  method MatchNextSegment(t: Tree, level: nat, url: string, params: map<Key, string>)
    returns (handle: Option<Handle>, filled: map<Key, string>)
    ensures match MatchTree(t, UrlSegments(url), level)
            case None => handle == None && filled == params
            case Some(hit) => handle == Some(hit.handle) && filled == params + hit.params
    decreases |url|, 0
  {
    var i := IndexOf(url, SLASH);
    if i == -1 {
      handle, filled := MatchLeaf(t, level, url, params);
    } else {
      handle, filled := MatchSubtree(t, level, url[..i], url[i + 1..], params);
    }
  }

  function TrimUrl(url: string): string
  {
    TrimSuffix(TrimPrefix(url))
  }

  /** Match. */
  method Match(t: Tree, url: string) returns (handle: Option<Handle>, params: map<Key, string>)
    ensures match MatchTree(t, UrlSegments(TrimUrl(url)), 0)
            case None => handle == None && params == map[]
            case Some(hit) => handle == Some(hit.handle) && params == hit.params
  {
    handle, params := MatchNextSegment(t, 0, TrimUrl(url), map[]);
    assert forall m: map<Key, string> :: map[] + m == m;
  }
}
