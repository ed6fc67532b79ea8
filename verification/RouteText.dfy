/**
 Routes and URLs as texts: what a reader of a pattern and of a URL expects of the tree, in terms of the
 characters themselves.
 */
module RouteText {
  import opened Base
  import opened RouteTree
  import opened RouteOrder

  // ------------------------------------------------------------------ texts and segments

  /** A pattern or URL as it is written: segments, with or without a slash before and after them. */
  datatype Spelling = Spelling(segs: seq<string>, lead: bool, trail: bool)

  /** Every segment after a slash. */
  function Slashed(segs: seq<string>): (text: string)
    ensures segs != [] ==> text != "" && text[0] == '/'
  {
    if segs == [] then "" else "/" + (segs[0] + Slashed(segs[1..]))
  }

  function Text(s: Spelling): string
    requires s.segs != []
  {
    (if s.lead then Slashed(s.segs) else Slashed(s.segs)[1..]) + if s.trail then "/" else ""
  }

  predicate Plain(segs: seq<string>)
  {
    segs != [] && forall i :: 0 <= i < |segs| ==> segs[i] != "" && '/' !in segs[i]
  }

  predicate NoSlash(segs: seq<string>)
  {
    forall i :: 0 <= i < |segs| ==> '/' !in segs[i]
  }

  lemma {:induction false} FirstSlash(a: string, b: string)
    requires '/' !in a
    ensures IndexOf(a + "/" + b, '/') == |a|
    ensures IndexOf(a, '/') == -1
  {
    if a != "" {
      assert (a + "/" + b)[1..] == a[1..] + "/" + b;
      FirstSlash(a[1..], b);
    }
  }

  lemma {:induction false} BeforeSlash(s: string)
    ensures IndexOf(s, '/') == -1 ==> '/' !in s
    ensures IndexOf(s, '/') >= 0 ==> '/' !in s[..IndexOf(s, '/')]
  {
    if s != "" && s[0] != '/' {
      BeforeSlash(s[1..]);
      var i := IndexOf(s, '/');
      assert s == [s[0]] + s[1..];
      if i >= 0 {
        assert s[..i] == [s[0]] + s[1..][..i - 1];
      }
    }
  }

  lemma {:induction false} JoinIsSlashed(segs: seq<string>)
    requires segs != []
    ensures Slashed(segs) == "/" + JoinSegments(segs)
  {
    if |segs| == 1 {
      assert segs[1..] == [];
    } else {
      JoinIsSlashed(segs[1..]);
    }
  }

  lemma UrlStep(a: string, b: string)
    requires '/' !in a
    ensures UrlSegments(a + "/" + b) == [a] + UrlSegments(b)
    ensures UrlSegments(a) == [a]
  {
    FirstSlash(a, b);
    var text := a + "/" + b;
    assert text[..|a|] == a && text[|a| + 1..] == b;
  }

  /** A URL comes apart into exactly the segments between its slashes, empty ones included. */
  lemma {:induction false} UrlSegmentsAre(segs: seq<string>)
    requires segs != [] && NoSlash(segs)
    ensures UrlSegments(Slashed(segs)[1..]) == segs
    decreases |segs|
  {
    hide UrlSegments, NoSlash;
    HeadOf(segs);
    RestIsPlain(segs);
    var rest := segs[1..];
    if rest == [] {
      UrlStep(segs[0], "");
    } else {
      UrlSegmentsAre(rest);
      UrlStep(segs[0], Slashed(rest)[1..]);
    }
  }

  /** The text of the segments, without its slash, is the first one and then the text of the others. */
  lemma HeadOf(segs: seq<string>)
    requires segs != []
    ensures Slashed(segs)[1..] == segs[0] + Slashed(segs[1..])
    ensures |segs| == 1 ==> Slashed(segs)[1..] == segs[0] && segs == [segs[0]]
    ensures |segs| > 1 ==> Slashed(segs)[1..] == segs[0] + "/" + Slashed(segs[1..])[1..]
  {
    var rest := Slashed(segs[1..]);
    DropFirst(segs[0] + rest);
    if |segs| > 1 {
      hide Slashed;
      assert rest == "/" + rest[1..];
      Regrouped(segs[0], rest[1..]);
    } else {
      assert rest == "" && segs[0] + "" == segs[0];
    }
  }

  lemma DropFirst(a: string)
    ensures ("/" + a)[1..] == a
  {
  }

  lemma Regrouped(a: string, b: string)
    ensures a + ("/" + b) == a + "/" + b
  {
  }

  lemma RestIsPlain(segs: seq<string>)
    requires segs != []
    ensures NoSlash(segs) ==> NoSlash(segs[1..]) && '/' !in segs[0]
    ensures Plain(segs) ==> '/' !in segs[0] && segs[0] != "" && (|segs| > 1 ==> Plain(segs[1..]))
  {
    assert forall i :: 0 <= i < |segs[1..]| ==> segs[1..][i] == segs[i + 1];
  }

  lemma PatternStep(a: string, b: string)
    requires '/' !in a && a != ""
    ensures PatternSegments(a + "/" + b) == [a] + PatternSegments(b) == PatternSegments("/" + (a + "/" + b))
    ensures PatternSegments(a) == [a] == PatternSegments("/" + a)
  {
    FirstSlash(a, b);
    var text := a + "/" + b;
    assert text[..|a|] == a && text[|a| + 1..] == b && text[0] == a[0];
    assert ("/" + text)[1..] == text && ("/" + a)[1..] == a;
  }

  /** So does a pattern, whether it starts with a slash or not. */
  lemma {:induction false} PatternSegmentsAre(segs: seq<string>)
    requires Plain(segs)
    ensures PatternSegments(Slashed(segs)) == segs && PatternSegments(Slashed(segs)[1..]) == segs
    decreases |segs|
  {
    hide PatternSegments, Slashed;
    HeadOf(segs);
    RestIsPlain(segs);
    assert '/' !in segs[0];
    assert Slashed(segs) == "/" + Slashed(segs)[1..];
    var rest := segs[1..];
    if rest == [] {
      PatternStep(segs[0], "");
    } else {
      PatternSegmentsAre(rest);
      PatternStep(segs[0], Slashed(rest)[1..]);
    }
  }

  lemma NoSegments()
    ensures NoSlash([])
  {
  }

  lemma OneMoreSegment(a: string, segs: seq<string>)
    requires '/' !in a && NoSlash(segs)
    ensures NoSlash([a] + segs) && NoSlash([a])
  {
  }

  /** No segment ever holds a slash. */
  lemma {:induction false} UrlSegmentsHaveNoSlash(text: string)
    ensures NoSlash(UrlSegments(text))
    decreases |text|
  {
    hide NoSlash, IndexOf;
    NoSegments();
    BeforeSlash(text);
    var i := IndexOf(text, '/');
    if i >= 0 {
      UrlSegmentsHaveNoSlash(text[i + 1..]);
      OneMoreSegment(text[..i], UrlSegments(text[i + 1..]));
    } else {
      OneMoreSegment(text, []);
    }
  }

  lemma {:induction false} PatternSegmentsHaveNoSlash(pattern: string)
    ensures NoSlash(PatternSegments(pattern))
    decreases |pattern|
  {
    hide NoSlash, IndexOf;
    NoSegments();
    var p := TrimPrefix(pattern);
    BeforeSlash(p);
    var i := IndexOf(p, '/');
    if i >= 0 {
      PatternSegmentsHaveNoSlash(p[i + 1..]);
      OneMoreSegment(p[..i], PatternSegments(p[i + 1..]));
    } else {
      OneMoreSegment(p, []);
    }
  }

  lemma {:induction false} EndsOfSlashed(segs: seq<string>)
    requires Plain(segs)
    ensures |Slashed(segs)| > 1 && Slashed(segs)[1] != '/' && Slashed(segs)[|Slashed(segs)| - 1] != '/'
  {
    HeadOf(segs);
    RestIsPlain(segs);
    var text := Slashed(segs);
    assert text[1..][0] == segs[0][0];
    if |segs| == 1 {
      assert text[1..][|text| - 2] == segs[0][|segs[0]| - 1];
    } else {
      EndsOfSlashed(segs[1..]);
    }
  }

  lemma TrimsText(body: string, lead: bool, trail: bool)
    requires body != "" && body[0] != '/' && body[|body| - 1] != '/'
    ensures var text := (if lead then "/" + body else body) + if trail then "/" else "";
            TrimUrl(text) == body && TrimSuffix(text) == if lead then "/" + body else body
  {
    var first := if lead then "/" + body else body;
    assert first + "" == first && (first + "/")[..|first|] == first;
    assert "/" + body + "/" == "/" + (body + "/");
    DropFirst(body);
    DropFirst(body + "/");
    assert (body + "/")[..|body|] == body;
  }

  /** One slash before and one after make no difference. */
  lemma SpellingDoesNotMatter(s: Spelling)
    requires Plain(s.segs)
    ensures UrlSegments(TrimUrl(Text(s))) == s.segs
    ensures PatternSegments(TrimSuffix(Text(s))) == s.segs
  {
    hide UrlSegments, PatternSegments, Slashed, TrimUrl, TrimSuffix;
    var body := Slashed(s.segs)[1..];
    EndsOfSlashed(s.segs);
    assert Slashed(s.segs) == "/" + body;
    TrimsText(body, s.lead, s.trail);
    UrlSegmentsAre(s.segs);
    PatternSegmentsAre(s.segs);
  }

  // ------------------------------------------------------------------ patterns and URLs

  /** A pattern as it is added. */
  datatype Pattern = Pattern(text: string, handle: Handle)

  /** The routes they are for the tree. */
  function RoutesOf(patterns: seq<Pattern>): (added: seq<Route>)
    ensures |added| == |patterns| && Routes(added)
    ensures forall i :: 0 <= i < |added| ==>
              added[i] == Route(PatternSegments(TrimSuffix(patterns[i].text)), patterns[i].handle)
  {
    seq(|patterns|, i requires 0 <= i < |patterns| =>
      Route(PatternSegments(TrimSuffix(patterns[i].text)), patterns[i].handle))
  }

  /** Adding a pattern to the tree of those before it. */
  lemma AddedNext(patterns: seq<Pattern>, p: Pattern)
    ensures Built(RoutesOf(patterns + [p])) == AddRoute(Built(RoutesOf(patterns)), PatternSegments(TrimSuffix(p.text)), p.handle)
  {
    var before, after := RoutesOf(patterns), RoutesOf(patterns + [p]);
    assert after == before + [Route(PatternSegments(TrimSuffix(p.text)), p.handle)];
    assert after[..|after| - 1] == before;
  }

  predicate IsHolder(segment: string)
  {
    segment != "" && segment[0] == ':'
  }

  predicate IsStatic(segment: string)
  {
    segment != "*" && !IsHolder(segment)
  }

  /** A pattern fits a URL segment by segment: a text fits itself, ":name" and "*" fit any segment, and a final
      "*" also any number of further ones. */
  predicate FitsUrl(route: seq<string>, url: seq<string>)
  {
    && 0 < |route| <= |url|
    && (|route| == |url| || route[|route| - 1] == "*")
    && forall i :: 0 <= i < |route| ==> IsStatic(route[i]) ==> route[i] == url[i]
  }

  lemma {:induction false} MatchesIsFitting(route: seq<string>, url: seq<string>)
    requires route != []
    ensures Matches(route, url) <==> FitsUrl(route, url)
    decreases |route|
  {
    if |route| > 1 && |url| > 1 {
      MatchesIsFitting(route[1..], url[1..]);
      FitsTail(route, url);
    }
  }

  lemma FitsTail(route: seq<string>, url: seq<string>)
    requires |route| > 1 && |url| > 1
    ensures FitsUrl(route, url) <==> FitsUrl(route[1..], url[1..]) && (IsStatic(route[0]) ==> route[0] == url[0])
  {
    var r, u := route[1..], url[1..];
    assert forall i :: 1 <= i < |route| ==> route[i] == r[i - 1];
    assert forall i :: 1 <= i < |url| ==> url[i] == u[i - 1];
    if FitsUrl(r, u) && (IsStatic(route[0]) ==> route[0] == url[0]) {
      forall i | 0 <= i < |route|
        ensures IsStatic(route[i]) ==> route[i] == url[i]
      {
        if i > 0 {
          assert IsStatic(r[i - 1]) ==> r[i - 1] == u[i - 1];
        }
      }
    }
    if FitsUrl(route, url) {
      forall i | 0 <= i < |r|
        ensures IsStatic(r[i]) ==> r[i] == u[i]
      {
        assert IsStatic(route[i + 1]) ==> route[i + 1] == url[i + 1];
      }
    }
  }

  // ------------------------------------------------------------------ parameters

  /** The level at which a segment of a route is matched: one more for every ":name" and "*" before it. */
  function Globs(segs: seq<string>): nat
  {
    if segs == [] then 0 else (if IsStatic(segs[0]) then 0 else 1) + Globs(segs[1..])
  }

  /** What a segment of a route takes of the URL: one segment, or all that is left for the last one. */
  function Taken(route: seq<string>, url: seq<string>, i: nat): string
    requires i < |route| <= |url|
  {
    if i == |route| - 1 then Slashed(url[i..])[1..] else url[i]
  }

  lemma TakenOfTail(route: seq<string>, url: seq<string>, i: nat)
    requires 0 < i < |route| <= |url|
    ensures Taken(route, url, i) == Taken(route[1..], url[1..], i - 1)
    ensures Globs(route[..i]) == (if IsStatic(route[0]) then 0 else 1) + Globs(route[1..][..i - 1])
  {
    hide Slashed;
    assert url[1..][i - 1..] == url[i..];
    assert route[..i][1..] == route[1..][..i - 1];
  }

  lemma TakenLast(url: seq<string>)
    requires url != []
    ensures Slashed(url[0..])[1..] == JoinSegments(url)
    ensures |url| == 1 ==> JoinSegments(url) == url[0]
  {
    hide Slashed;
    assert url[0..] == url;
    JoinIsSlashed(url);
  }

  /** ":name" is the segment at its first place, also when the name is used again. */
  lemma {:induction false} HolderParam(route: seq<string>, url: seq<string>, level: nat, i: nat)
    requires route != [] && Matches(route, url) && FitsUrl(route, url) && i < |route|
    requires IsHolder(route[i]) && route[i] !in route[..i]
    ensures var params := ParamsOf(route, url, level);
            Named(route[i]) in params && params[Named(route[i])] == Taken(route, url, i)
    decreases i
  {
    hide Slashed;
    if |route| == 1 {
      TakenLast(url);
    } else if i > 0 {
      MatchesIsFitting(route[1..], url[1..]);
      TakenOfTail(route, url, i);
      assert route[..i][0] == route[0];
      assert route[1..][..i - 1] == route[..i][1..];
      HolderParam(route[1..], url[1..], Below(route[0], level), i - 1);
    }
  }

  /** A "*" is found under its level, and a final one also under "*". */
  lemma {:induction false} StarParam(route: seq<string>, url: seq<string>, level: nat, i: nat)
    requires route != [] && Matches(route, url) && FitsUrl(route, url) && i < |route| && route[i] == "*"
    ensures var params := ParamsOf(route, url, level);
            && StarAt(level + Globs(route[..i])) in params
            && params[StarAt(level + Globs(route[..i]))] == Taken(route, url, i)
            && (i == |route| - 1 ==> Star in params && params[Star] == Taken(route, url, i))
    decreases i
  {
    hide Slashed;
    if i == 0 {
      assert route[..i] == [];
      TakenLast(url);
    } else {
      MatchesIsFitting(route[1..], url[1..]);
      TakenOfTail(route, url, i);
      StarParam(route[1..], url[1..], Below(route[0], level), i - 1);
    }
  }

  /** There are no other parameters. */
  lemma {:induction false} OnlyParams(route: seq<string>, url: seq<string>, level: nat, key: Key)
    requires route != [] && Matches(route, url) && key in ParamsOf(route, url, level)
    ensures match key
            case Named(name) => IsHolder(name) && name in route
            case Star => route[|route| - 1] == "*"
            case StarAt(n) => exists i :: 0 <= i < |route| && route[i] == "*" && n == level + Globs(route[..i])
    decreases |route|
  {
    assert route[..0] == [];
    if |route| > 1 && key in ParamsOf(route[1..], url[1..], Below(route[0], level)) {
      OnlyParams(route[1..], url[1..], Below(route[0], level), key);
      if key.StarAt? {
        var i :| 0 <= i < |route[1..]| && route[1..][i] == "*" && key.level == Below(route[0], level) + Globs(route[1..][..i]);
        assert route[..i + 1][1..] == route[1..][..i];
        assert route[i + 1] == "*";
      }
    }
  }

  // ------------------------------------------------------------------ the order of routes

  function KindOf(segment: string): nat
  {
    if segment == "*" then 2 else if IsHolder(segment) then 1 else 0
  }

  /** Where two routes part: the first place at which they differ or one of them ends. */
  function Parting(p: seq<string>, q: seq<string>): (d: nat)
    requires p != [] && q != []
    ensures d < |p| && d < |q| && p[..d] == q[..d]
    ensures p[d] != q[d] || d == |p| - 1 || d == |q| - 1
    decreases |p|
  {
    if p[0] != q[0] || |p| == 1 || |q| == 1 then 0
    else
      var d := Parting(p[1..], q[1..]);
      assert p[..d + 1] == [p[0]] + p[1..][..d] && q[..d + 1] == [q[0]] + q[1..][..d];
      d + 1
  }

  /** The route itself, or one that goes on after these segments. */
  predicate Through(r: Route, segs: seq<string>, onward: bool)
  {
    if onward then segs < r.segs else r.segs == segs
  }

  /** The first one that was added. */
  function First(added: seq<Route>, segs: seq<string>, onward: bool): (i: nat)
    ensures i <= |added|
    ensures i < |added| ==> Through(added[i], segs, onward)
    ensures forall j :: 0 <= j < i ==> !Through(added[j], segs, onward)
  {
    if added == [] || Through(added[0], segs, onward) then 0 else 1 + First(added[1..], segs, onward)
  }

  /** Where two routes part, the one that goes on comes first; if both do or neither does, a text before
      ":name" before "*", and of two names the one that was added first. */
  predicate ComesFirst(added: seq<Route>, p: seq<string>, q: seq<string>)
    requires p != [] && q != []
  {
    var d := Parting(p, q);
    if |p| > d + 1 && |q| > d + 1 then
      || KindOf(p[d]) < KindOf(q[d])
      || (KindOf(p[d]) == KindOf(q[d]) && First(added, p[..d + 1], true) < First(added, q[..d + 1], true))
    else
      || |p| > d + 1
      || (|q| == d + 1 && (|| KindOf(p[d]) < KindOf(q[d])
                           || (KindOf(p[d]) == KindOf(q[d]) && First(added, p, false) < First(added, q, false))))
  }

  lemma {:induction false} FirstsOfOne(added: seq<Route>, seg: string)
    requires Routes(added)
    ensures FirstBranch(added, seg) == First(added, [seg], true)
    ensures FirstLeaf(added, seg) == First(added, [seg], false)
  {
    if added != [] {
      var r := added[0].segs;
      assert r[..1] == [r[0]];
      assert [seg] < r <==> |r| > 1 && r[0] == seg;
      assert forall i :: 0 <= i < |added[1..]| ==> added[1..][i] == added[i + 1];
      FirstsOfOne(added[1..], seg);
    }
  }

  lemma RankIsKind(a: string, b: string)
    ensures Rank(a) < Rank(b) <==> KindOf(a) < KindOf(b)
  {
  }

  lemma FirstOfMore(added: seq<Route>, r: Route, segs: seq<string>, onward: bool)
    ensures First(added + [r], segs, onward)
         == if First(added, segs, onward) < |added| then First(added, segs, onward)
            else if Through(r, segs, onward) then |added| else |added| + 1
  {
    hide Through;
    var more := added + [r];
    assert forall i :: 0 <= i < |added| ==> more[i] == added[i];
    assert more[|added|] == r;
  }

  lemma ThroughTail(r: Route, seg: string, segs: seq<string>, onward: bool)
    requires r.segs != [] && segs != []
    ensures Through(r, [seg] + segs, onward) <==> GoesOn(r, seg) && Through(Route(r.segs[1..], r.handle), segs, onward)
  {
    assert r.segs == [r.segs[0]] + r.segs[1..];
    assert ([seg] + segs)[1..] == segs;
    if onward && [seg] + segs < r.segs {
      assert segs == r.segs[1..][..|segs|];
    }
  }

  /** Behind a segment the routes are in the order in which they were added. */
  lemma {:induction false} FirstOfTails(added: seq<Route>, seg: string, a: seq<string>, b: seq<string>, onward: bool)
    requires Routes(added) && a != [] && b != []
    ensures var tails := Tails(added, seg);
            && (First(tails, a, onward) < |tails| <==> First(added, [seg] + a, onward) < |added|)
            && (First(tails, b, onward) < |tails| <==> First(added, [seg] + b, onward) < |added|)
            && (First(tails, a, onward) < First(tails, b, onward)
                <==> First(added, [seg] + a, onward) < First(added, [seg] + b, onward))
    decreases |added|
  {
    hide Through, GoesOn, First;
    if added == [] {
      NoneFirst(a, b, onward);
      NoneFirst([seg] + a, [seg] + b, onward);
    } else {
      var n := |added| - 1;
      var before, r := added[..n], added[n];
      assert added == before + [r];
      FirstOfTails(before, seg, a, b, onward);
      ThroughTail(r, seg, a, onward);
      ThroughTail(r, seg, b, onward);
      FirstOfMore(before, r, [seg] + a, onward);
      FirstOfMore(before, r, [seg] + b, onward);
      var tails := Tails(before, seg);
      if GoesOn(r, seg) {
        FirstOfMore(tails, Route(r.segs[1..], r.handle), a, onward);
        FirstOfMore(tails, Route(r.segs[1..], r.handle), b, onward);
      } else {
        assert tails + [] == tails;
      }
    }
  }

  lemma NoneFirst(a: seq<string>, b: seq<string>, onward: bool)
    ensures First([], a, onward) == First([], b, onward) == 0
  {
  }

  /** The order of the tree is that order. */
  lemma {:induction false} PrecedesComesFirst(added: seq<Route>, p: seq<string>, q: seq<string>)
    requires Routes(added) && p != [] && q != []
    ensures Precedes(added, p, q) <==> ComesFirst(added, p, q)
    decreases |p|
  {
    hide Rank, KindOf, First, FirstBranch, FirstLeaf, Tails;
    RankIsKind(p[0], q[0]);
    RankIsKind(q[0], p[0]);
    if |p| > 1 && |q| > 1 && p[0] == q[0] {
      PrecedesComesFirst(Tails(added, p[0]), p[1..], q[1..]);
      PartingOfTails(added, p, q);
    } else {
      FirstsOfOne(added, p[0]);
      FirstsOfOne(added, q[0]);
      assert p[..1] == [p[0]] && q[..1] == [q[0]];
      assert |p| == 1 ==> p == [p[0]];
      assert |q| == 1 ==> q == [q[0]];
    }
  }

  lemma HeadAndTail(p: seq<string>, d: nat)
    requires d + 1 < |p|
    ensures p == [p[0]] + p[1..] && p[..d + 2] == [p[0]] + p[1..][..d + 1] && p[d + 1] == p[1..][d]
  {
  }

  lemma PartingOfTails(added: seq<Route>, p: seq<string>, q: seq<string>)
    requires Routes(added) && |p| > 1 && |q| > 1 && p[0] == q[0]
    ensures ComesFirst(added, p, q) <==> ComesFirst(Tails(added, p[0]), p[1..], q[1..])
  {
    hide KindOf, First, Tails;
    var d := Parting(p[1..], q[1..]);
    assert Parting(p, q) == d + 1;
    hide Parting;
    HeadAndTail(p, d);
    HeadAndTail(q, d);
    FirstOfTails(added, p[0], p[1..][..d + 1], q[1..][..d + 1], true);
    FirstOfTails(added, p[0], p[1..], q[1..], false);
  }

  // ------------------------------------------------------------------ the tree as its users see it

  /** The spellings of the patterns, whose segments are of the kinds modelled. */
  predicate Spelled(patterns: seq<Pattern>, spellings: seq<Spelling>)
  {
    |patterns| == |spellings| && forall i :: 0 <= i < |patterns| ==> SpelledAs(patterns[i], spellings[i])
  }

  predicate SpelledAs(p: Pattern, s: Spelling)
  {
    Plain(s.segs) && p.text == Text(s) && forall j :: 0 <= j < |s.segs| ==> Supported(s.segs[j])
  }

  lemma SpelledRoutes(patterns: seq<Pattern>, spellings: seq<Spelling>, i: nat)
    requires Spelled(patterns, spellings) && i < |patterns|
    ensures RoutesOf(patterns)[i] == Route(spellings[i].segs, patterns[i].handle)
  {
    hide Text, PatternSegments, TrimSuffix, Plain;
    assert SpelledAs(patterns[i], spellings[i]);
    SpellingDoesNotMatter(spellings[i]);
  }

  lemma {:induction false} HandleOfFirst(added: seq<Route>, route: seq<string>)
    requires Has(added, route)
    ensures First(added, route, false) < |added| && HandleOf(added, route) == added[First(added, route, false)].handle
    decreases |added|
  {
    var n := |added| - 1;
    var i :| 0 <= i < |added| && added[i].segs == route;
    assert Through(added[i], route, false);
    var k := First(added, route, false);
    assert k < n ==> added[..n][k] == added[k];
    if Has(added[..n], route) {
      HandleOfFirst(added[..n], route);
      var j := First(added[..n], route, false);
      assert added[..n][j] == added[j];
    } else {
      HasLast(added, route);
    }
  }

  /** Of the patterns that fit a URL, however both are spelled, Match takes the one that comes first, with its
      first handle and the parameters it takes; and it fails only when none fits. */
  lemma MatchTakesTheFirst(patterns: seq<Pattern>, spellings: seq<Spelling>, url: Spelling) returns (k: nat)
    requires Spelled(patterns, spellings) && Plain(url.segs)
    ensures var hit := MatchTree(Built(RoutesOf(patterns)), UrlSegments(TrimUrl(Text(url))), 0);
            && (hit.Some? <==> exists i :: 0 <= i < |patterns| && FitsUrl(spellings[i].segs, url.segs))
            && (hit.Some? ==>
                  && k < |patterns| && FitsUrl(spellings[k].segs, url.segs)
                  && Matches(spellings[k].segs, url.segs)
                  && hit.value == Hit(patterns[k].handle, ParamsOf(spellings[k].segs, url.segs, 0))
                  && (forall i :: 0 <= i < k ==> spellings[i].segs != spellings[k].segs)
                  && forall i :: 0 <= i < |patterns| && FitsUrl(spellings[i].segs, url.segs)
                                 && spellings[i].segs != spellings[k].segs ==>
                       spellings[i].segs != []
                       && ComesFirst(RoutesOf(patterns), spellings[k].segs, spellings[i].segs))
  {
    hide Text, PatternSegments, TrimSuffix, TrimUrl, UrlSegments, MatchTree, Built, Precedes, ComesFirst, Matches, FitsUrl,
         Supported, ParamsOf, HandleOf, RoutesOf;
    var added := RoutesOf(patterns);
    forall i | 0 <= i < |added|
      ensures added[i] == Route(spellings[i].segs, patterns[i].handle) && Plain(spellings[i].segs)
      ensures forall j :: 0 <= j < |added[i].segs| ==> Supported(added[i].segs[j])
    {
      SpelledRoutes(patterns, spellings, i);
      assert SpelledAs(patterns[i], spellings[i]);
    }
    SpellingDoesNotMatter(url);
    var p := TreeAgreesWithRoutes(added, url.segs);
    forall i | 0 <= i < |patterns|
      ensures Has(added, spellings[i].segs) && spellings[i].segs != []
      ensures Matches(spellings[i].segs, url.segs) <==> FitsUrl(spellings[i].segs, url.segs)
    {
      assert added[i].segs == spellings[i].segs;
      MatchesIsFitting(spellings[i].segs, url.segs);
    }
    k := 0;
    if MatchTree(Built(added), url.segs, 0).Some? {
      HandleOfFirst(added, p);
      k := First(added, p, false);
      assert spellings[k].segs == p;
      forall i | 0 <= i < |patterns| && FitsUrl(spellings[i].segs, url.segs) && spellings[i].segs != p
        ensures ComesFirst(added, p, spellings[i].segs)
      {
        PrecedesComesFirst(added, p, spellings[i].segs);
      }
      forall i | 0 <= i < k
        ensures spellings[i].segs != p
      {
        assert !Through(added[i], p, false);
      }
    }
  }
}
