/**
 Folding of header fields (writeHeader and writeLine of gomail.v2/writeto.go). Lines are broken at
 spaces; taking the breaks out again, as section 2.2.3 of RFC 5322 says, gives the field.
 */
module HeaderFold {
  import opened Base

  const SP: byte := 32
  const COMMA: byte := 44
  const COLON: byte := 58

  /** What is written: text, or a line break that folding inserts. */
  datatype Piece = Text(s: bytes) | Fold

  function Rendered(pieces: seq<Piece>): bytes
  {
    if pieces == [] then []
    else (if pieces[0].Text? then pieces[0].s else CRLF) + Rendered(pieces[1..])
  }

  /** The text without the inserted breaks. */
  function Unfolded(pieces: seq<Piece>): bytes
  {
    if pieces == [] then [] else (if pieces[0].Text? then pieces[0].s else []) + Unfolded(pieces[1..])
  }

  lemma {:induction false} RenderedConcat(a: seq<Piece>, b: seq<Piece>)
    ensures Rendered(a + b) == Rendered(a) + Rendered(b)
    ensures Unfolded(a + b) == Unfolded(a) + Unfolded(b)
  {
    if a == [] {
      assert a + b == b;
    } else {
      assert (a + b)[1..] == a[1..] + b;
      RenderedConcat(a[1..], b);
      var r, u := if a[0].Text? then a[0].s else CRLF, if a[0].Text? then a[0].s else [];
      assert r + (Rendered(a[1..]) + Rendered(b)) == r + Rendered(a[1..]) + Rendered(b);
      assert u + (Unfolded(a[1..]) + Unfolded(b)) == u + Unfolded(a[1..]) + Unfolded(b);
    }
  }

  lemma OneText(s: bytes)
    ensures Rendered([Text(s)]) == s && Unfolded([Text(s)]) == s
  {
    assert [Text(s)][1..] == [];
    assert s + [] == s;
  }

  lemma Broken(first: bytes)
    ensures Rendered([Text(first), Fold, Text([SP])]) == first + CRLF + [SP]
    ensures Unfolded([Text(first), Fold, Text([SP])]) == first + [SP]
  {
    var p := [Text(first), Fold, Text([SP])];
    assert p == [Text(first)] + ([Fold] + [Text([SP])]);
    OneText(first);
    OneText([SP]);
    RenderedConcat([Text(first)], [Fold] + [Text([SP])]);
    RenderedConcat([Fold], [Text([SP])]);
    assert [Fold][1..] == [];
  }

  // ------------------------------------------------------------------ taking the breaks out

  /** Unfolding: every CRLF right before a space is removed. */
  function Unfold(s: bytes): bytes
    decreases |s|
  {
    if s == [] then []
    else if |s| >= 3 && s[0] == CR && s[1] == LF && s[2] == SP then Unfold(s[2..])
    else [s[0]] + Unfold(s[1..])
  }

  /** Text without line breaks, and after every inserted break a space. */
  predicate Plain(pieces: seq<Piece>)
  {
    && (forall i :: 0 <= i < |pieces| && pieces[i].Text? ==> LF !in pieces[i].s)
    && (forall i :: 0 <= i < |pieces| && pieces[i].Fold? ==>
          i + 1 < |pieces| && pieces[i + 1].Text? && pieces[i + 1].s != [] && pieces[i + 1].s[0] == SP)
  }

  lemma {:induction false} UnfoldText(s: bytes, rest: bytes)
    requires LF !in s && (rest != [] ==> rest[0] != LF)
    ensures Unfold(s + rest) == s + Unfold(rest)
  {
    if s == [] {
      assert s + rest == rest;
    } else {
      var all := s + rest;
      assert all[1..] == s[1..] + rest;
      UnfoldText(s[1..], rest);
      assert |all| >= 2 ==> all[1] != LF;
    }
  }

  lemma StartsWithout(pieces: seq<Piece>)
    requires Plain(pieces)
    ensures Rendered(pieces) + CRLF != [] && (Rendered(pieces) + CRLF)[0] != LF
    decreases |pieces|
  {
    if pieces != [] {
      PlainRest(pieces);
      StartsWithout(pieces[1..]);
    }
  }

  lemma PlainRest(pieces: seq<Piece>)
    requires Plain(pieces) && pieces != []
    ensures Plain(pieces[1..])
  {
    var rest := pieces[1..];
    assert forall i :: 0 <= i < |rest| ==> rest[i] == pieces[i + 1];
    assert forall i :: 0 <= i < |rest| && rest[i].Fold? ==> rest[i + 1] == pieces[i + 2];
  }

  /** Unfolding what was rendered, up to the CRLF that ends the field, gives the text. */
  lemma {:induction false} UnfoldGivesText(pieces: seq<Piece>)
    requires Plain(pieces)
    ensures Unfold(Rendered(pieces) + CRLF) == Unfolded(pieces) + CRLF
    decreases |pieces|
  {
    hide Unfold;
    if pieces == [] {
      assert [] + CRLF == CRLF;
      UnfoldEnd();
    } else {
      var rest := pieces[1..];
      var more := Rendered(rest) + CRLF;
      PlainRest(pieces);
      UnfoldGivesText(rest);
      StartsWithout(rest);
      if pieces[0].Text? {
        var s := pieces[0].s;
        UnfoldText(s, more);
        assert Rendered(pieces) + CRLF == s + more;
        assert s + (Unfolded(rest) + CRLF) == s + Unfolded(rest) + CRLF;
      } else {
        assert rest[0] == pieces[1];
        assert more[0] == rest[0].s[0];
        UnfoldBreak(more);
        assert Rendered(pieces) + CRLF == CRLF + more;
        assert [] + Unfolded(rest) == Unfolded(rest);
      }
    }
  }

  lemma UnfoldEnd()
    ensures Unfold(CRLF) == CRLF
  {
    assert CRLF[1..] == [LF] && [LF][1..] == [];
  }

  lemma UnfoldBreak(more: bytes)
    requires more != [] && more[0] == SP
    ensures Unfold(CRLF + more) == Unfold(more)
  {
    assert (CRLF + more)[2..] == more;
  }

  // ------------------------------------------------------------------ where a line is broken

  datatype Break = AfterNewline(i: nat) | AtSpace(i: nat) | Nowhere

  /** The last space before n, or -1. */
  function LastSpace(s: bytes, n: int): (j: int)
    requires n <= |s|
    ensures -1 <= j && (j >= 0 ==> j < n && s[j] == SP)
    decreases n
  {
    if n <= 0 then -1 else if s[n - 1] == SP then n - 1 else LastSpace(s, n - 1)
  }

  /** The first space or newline from k on, or the end. */
  function FirstBreak(s: bytes, k: nat): (j: nat)
    ensures j <= |s| && (j < |s| ==> s[j] == SP || s[j] == LF)
    decreases |s| - k
  {
    if k >= |s| then |s| else if s[k] == SP || s[k] == LF then k else FirstBreak(s, k + 1)
  }

  /** A newline within the limit, else the last space within it, else the first of either after it. */
  function BreakOf(s: bytes, charsLeft: int): (b: Break)
    requires charsLeft <= |s|
    ensures b.AfterNewline? ==> b.i < |s| && s[b.i] == LF
    ensures b.AtSpace? ==> b.i < |s| && s[b.i] == SP
  {
    var i := IndexByte(s, LF);
    if 0 <= i < charsLeft then AfterNewline(i)
    else
      var j := LastSpace(s, charsLeft);
      if j >= 0 then AtSpace(j)
      else
        var k := FirstBreak(s, 75);
        if k == |s| then Nowhere else if s[k] == SP then AtSpace(k) else AfterNewline(k)
  }

  function PiecesOf(s: bytes, b: Break): seq<Piece>
    requires !b.Nowhere? ==> b.i < |s|
  {
    match b
    case AfterNewline(i) => [Text(s[..i + 1])]
    case AtSpace(i) => [Text(s[..i]), Fold, Text([SP])]
    case Nowhere => [Text(s)]
  }

  function RestOf(s: bytes, b: Break): bytes
    requires !b.Nowhere? ==> b.i < |s|
  {
    if b.Nowhere? then [] else s[b.i + 1..]
  }

  /** The text a line takes; the space where it is broken belongs to it. */
  function TextOf(s: bytes, b: Break): bytes
    requires !b.Nowhere? ==> b.i < |s|
  {
    if b.Nowhere? then s else s[..b.i + 1]
  }

  predicate BreaksAt(s: bytes, b: Break)
  {
    match b
    case AfterNewline(i) => i < |s| && s[i] == LF
    case AtSpace(i) => i < |s| && s[i] == SP
    case Nowhere => true
  }

  lemma LinePieces(s: bytes, b: Break)
    requires BreaksAt(s, b)
    ensures Unfolded(PiecesOf(s, b)) == TextOf(s, b) && TextOf(s, b) + RestOf(s, b) == s
    ensures LF !in s ==> Plain(PiecesOf(s, b)) && LF !in RestOf(s, b)
  {
    match b
    case AfterNewline(i) => OneText(s[..i + 1]);
    case AtSpace(i) => Broken(s[..i]);
    case Nowhere => OneText(s);
  }

  lemma {:induction false} LastSpaceIsLast(s: bytes, n: int)
    requires n <= |s|
    ensures forall i :: 0 <= i < n && s[i] == SP ==> i <= LastSpace(s, n)
    decreases n
  {
    if n > 0 && s[n - 1] != SP {
      LastSpaceIsLast(s, n - 1);
    }
  }

  /** A line only goes past the limit when there is no space within it. */
  lemma BreakWithinLimit(s: bytes, charsLeft: int)
    requires 0 <= charsLeft < |s| && SP in s[..charsLeft]
    ensures !BreakOf(s, charsLeft).Nowhere? && BreakOf(s, charsLeft).i < charsLeft
  {
    var k :| 0 <= k < charsLeft && s[..charsLeft][k] == SP;
    assert s[k] == SP;
    LastSpaceIsLast(s, charsLeft);
  }

  lemma {:induction false} FirstBreakIsFirst(s: bytes, k: nat)
    ensures FirstBreak(s, k) < |s| ==> k <= FirstBreak(s, k)
    ensures forall i :: k <= i < FirstBreak(s, k) ==> s[i] != SP && s[i] != LF
    decreases |s| - k
  {
    if k < |s| && s[k] != SP && s[k] != LF {
      FirstBreakIsFirst(s, k + 1);
    }
  }

  /** Neither a space nor a newline from a place on, up to another. */
  predicate Solid(s: bytes, i: int, j: int)
  {
    forall k :: 0 <= i <= k < j && k < |s| ==> s[k] != 32 && s[k] != 10
  }

  predicate NoNewlineBefore(s: bytes, n: int)
  {
    forall k :: 0 <= k < n && k < |s| ==> s[k] != 10
  }

  predicate NoSpaceWithin(s: bytes, i: int, n: int)
  {
    forall k :: 0 <= i <= k < n && k < |s| ==> s[k] != 32
  }

  /** A line is broken behind its first newline, if that is within the limit, otherwise at the last space within
      it, and otherwise at the first space or newline from its 76th character on. */
  lemma BreakIs(s: bytes, limit: int)
    requires limit <= |s|
    ensures match BreakOf(s, limit)
            case AfterNewline(i) =>
              && i < |s| && s[i] == 10
              && if i < limit then NoNewlineBefore(s, i) else 75 <= i && Solid(s, 0, limit) && Solid(s, 75, i)
            case AtSpace(i) =>
              && i < |s| && s[i] == 32 && NoNewlineBefore(s, limit)
              && if i < limit then NoSpaceWithin(s, i + 1, limit) else 75 <= i && Solid(s, 0, limit) && Solid(s, 75, i)
            case Nowhere => Solid(s, 0, limit) && Solid(s, 75, |s|)
  {
    LastSpaceIsLast(s, limit);
    FirstBreakIsFirst(s, 75);
    NewlineIsFirst(s, limit);
  }

  lemma NewlineIsFirst(s: bytes, limit: int)
    ensures var i := IndexByte(s, LF);
            && (i >= 0 ==> NoNewlineBefore(s, i))
            && (!(0 <= i < limit) ==> NoNewlineBefore(s, limit))
  {
    var i := IndexByte(s, LF);
    if i >= 0 {
      assert forall k :: 0 <= k < i ==> s[k] == s[..i][k];
    }
  }

  lemma {:induction false} PlainConcat(a: seq<Piece>, b: seq<Piece>)
    requires Plain(a) && Plain(b)
    ensures Plain(a + b)
  {
    var all := a + b;
    forall i | 0 <= i < |all| && all[i].Fold?
      ensures i + 1 < |all| && all[i + 1].Text? && all[i + 1].s != [] && all[i + 1].s[0] == SP
    {
      if i < |a| {
        assert all[i + 1] == a[i + 1];
      } else {
        assert all[i + 1] == b[i - |a| + 1];
      }
    }
  }

  // ------------------------------------------------------------------ the field

  const FOLDED_WIDTH: int := 75

  /** The lines one value is folded into, what is left of it for the last one, and the room there. */
  function FoldValue(s: bytes, charsLeft: int): (r: (seq<Piece>, bytes, int))
    decreases |s|, charsLeft < 0
  {
    if |s| <= charsLeft then ([], s, charsLeft)
    else
      var b := BreakOf(s, charsLeft);
      var r := FoldValue(RestOf(s, b), FOLDED_WIDTH);
      (PiecesOf(s, b) + r.0, r.1, r.2)
  }

  function LastIndex(s: bytes, c: byte): (i: int)
    ensures -1 <= i < |s|
  {
    if s == [] then -1 else if s[|s| - 1] == c then |s| - 1 else LastIndex(s[..|s| - 1], c)
  }

  function CharsLeft(s: bytes, charsLeft: int): int
  {
    var i := LastIndex(s, LF);
    if i != -1 then FOLDED_WIDTH - (|s| - i - 1) else charsLeft - |s|
  }

  lemma {:induction false} LastIndexBehind(a: bytes, c: byte, b: bytes)
    requires c !in b
    ensures LastIndex(a + [c] + b, c) == |a| && LastIndex(b, c) == -1
    decreases |b|
  {
    var s := a + [c] + b;
    if b == [] {
      assert s == a + [c] && s[|s| - 1] == c;
    } else {
      var n := |b| - 1;
      assert s[..|s| - 1] == a + [c] + b[..n] && s[|s| - 1] == b[n];
      LastIndexBehind(a, c, b[..n]);
    }
  }

  /** The room after a value is counted from its last newline, if it has one. */
  lemma CharsLeftIs(a: bytes, b: bytes, room: int)
    requires 10 !in b
    ensures CharsLeft(b, room) == room - |b| && CharsLeft(a + [10] + b, room) == 75 - |b|
  {
    LastIndexBehind(a, 10, b);
  }

  /** What goes before a value: a break when the line is full, else a comma and a space. */
  function Separator(first: bool, charsLeft: int): seq<Piece>
  {
    if charsLeft < 1 then [Text(if first then [] else [COMMA]), Fold, Text([SP])]
    else if first then []
    else [Text([COMMA, SP])]
  }

  function AfterSeparator(first: bool, charsLeft: int): int
  {
    if charsLeft < 1 then FOLDED_WIDTH else if first then charsLeft else charsLeft - 2
  }

  /** One value with what goes before it, and the room after it. */
  function ValuePieces(value: bytes, first: bool, charsLeft: int): (seq<Piece>, int)
  {
    var r := FoldValue(value, AfterSeparator(first, charsLeft));
    (Separator(first, charsLeft) + r.0 + [Text(r.1)], CharsLeft(r.1, r.2))
  }

  function FoldValues(v: seq<bytes>, first: bool, charsLeft: int): seq<Piece>
    decreases |v|
  {
    if v == [] then []
    else
      var r := ValuePieces(v[0], first, charsLeft);
      r.0 + FoldValues(v[1..], false, r.1)
  }

  /** The pieces of a header field, without the CRLF that ends it. */
  function FieldPieces(k: bytes, v: seq<bytes>): seq<Piece>
  {
    if v == [] then [Text(k), Text([COLON])]
    else [Text(k), Text([COLON, SP])] + FoldValues(v, true, 76 - |k| - 2)
  }

  function JoinRest(v: seq<bytes>): bytes
  {
    if v == [] then [] else [COMMA, SP] + v[0] + JoinRest(v[1..])
  }

  /** The field as it should read. */
  function Intended(k: bytes, v: seq<bytes>): bytes
  {
    if v == [] then k + [COLON] else k + [COLON, SP] + v[0] + JoinRest(v[1..])
  }

  /** The field as it does read: after a name of 74 characters or more there is a second space. */
  function Field(k: bytes, v: seq<bytes>): bytes
  {
    if v == [] then k + [COLON]
    else k + [COLON, SP] + (if |k| >= 74 then [SP] else []) + v[0] + JoinRest(v[1..])
  }

  /** In literal characters. */
  lemma IntendedIs(k: bytes, a: bytes, more: seq<bytes>)
    ensures Intended(k, []) == k + Ascii(":")
    ensures Intended(k, [a] + more) == k + Ascii(": ") + a + JoinRest(more)
    ensures JoinRest([a] + more) == Ascii(", ") + a + JoinRest(more) && JoinRest([]) == []
  {
    assert Ascii(":") == [COLON] && Ascii(": ") == [COLON, SP] && Ascii(", ") == [COMMA, SP];
    assert ([a] + more)[1..] == more;
  }

  predicate OneLine(k: bytes, v: seq<bytes>)
  {
    LF !in k && AllOneLine(v)
  }

  predicate AllOneLine(v: seq<bytes>)
  {
    forall i :: 0 <= i < |v| ==> LF !in v[i]
  }

  lemma {:induction false} FoldValueText(s: bytes, charsLeft: int)
    ensures var r := FoldValue(s, charsLeft);
            Unfolded(r.0) + r.1 == s && (LF !in s ==> Plain(r.0) && LF !in r.1)
    decreases |s|, charsLeft < 0
  {
    hide Unfolded, Plain, PiecesOf, FoldValue, BreakOf, RestOf, TextOf, BreaksAt;
    FoldValueStep(s, charsLeft);
    if |s| <= charsLeft {
      NoPieces();
      assert [] + s == s;
    } else {
      var b := BreakOf(s, charsLeft);
      var rest := RestOf(s, b);
      FoldValueText(rest, FOLDED_WIDTH);
      var r := FoldValue(rest, FOLDED_WIDTH);
      BreakOfBreaks(s, charsLeft);
      LinePieces(s, b);
      RenderedConcat(PiecesOf(s, b), r.0);
      assert TextOf(s, b) + Unfolded(r.0) + r.1 == TextOf(s, b) + (Unfolded(r.0) + r.1);
      if LF !in s {
        PlainConcat(PiecesOf(s, b), r.0);
      }
    }
  }

  lemma BreakOfBreaks(s: bytes, charsLeft: int)
    requires charsLeft <= |s|
    ensures BreaksAt(s, BreakOf(s, charsLeft))
  {
  }

  lemma NoPieces()
    ensures Unfolded([]) == [] && Rendered([]) == [] && Plain([])
  {
  }

  lemma SeparatorText(first: bool, charsLeft: int)
    ensures Unfolded(Separator(first, charsLeft))
         == (if !first then [COMMA, SP] else if charsLeft < 1 then [SP] else []) && Plain(Separator(first, charsLeft))
  {
    Broken([]);
    Broken([COMMA]);
    OneText([COMMA, SP]);
    assert [] + [SP] == [SP] && [COMMA] + [SP] == [COMMA, SP];
  }

  lemma {:induction false} FoldValuesText(v: seq<bytes>, first: bool, charsLeft: int)
    ensures Unfolded(FoldValues(v, first, charsLeft))
         == if v == [] then []
            else if first then (if charsLeft < 1 then [SP] else []) + v[0] + JoinRest(v[1..])
            else JoinRest(v)
    ensures AllOneLine(v) ==> Plain(FoldValues(v, first, charsLeft))
    decreases |v|
  {
    hide Unfolded, Plain, Separator;
    if v == [] {
      NoPieces();
    } else {
      var left := AfterSeparator(first, charsLeft);
      var r := FoldValue(v[0], left);
      var sep, tail := Separator(first, charsLeft), FoldValues(v[1..], false, CharsLeft(r.1, r.2));
      FoldValueText(v[0], left);
      SeparatorText(first, charsLeft);
      FoldValuesText(v[1..], false, CharsLeft(r.1, r.2));
      FourParts(sep, r.0, r.1, tail);
      assert Unfolded(sep) + (Unfolded(r.0) + r.1) + Unfolded(tail) == Unfolded(sep) + v[0] + JoinRest(v[1..]);
      if AllOneLine(v) {
        FourPlain(sep, r.0, r.1, tail);
      }
    }
  }

  lemma FourParts(a: seq<Piece>, b: seq<Piece>, s: bytes, c: seq<Piece>)
    ensures Unfolded(a + b + [Text(s)] + c) == Unfolded(a) + (Unfolded(b) + s) + Unfolded(c)
  {
    RenderedConcat(a + b + [Text(s)], c);
    RenderedConcat(a + b, [Text(s)]);
    RenderedConcat(a, b);
    OneText(s);
    assert Unfolded(a) + Unfolded(b) + s == Unfolded(a) + (Unfolded(b) + s);
  }

  lemma FourPlain(a: seq<Piece>, b: seq<Piece>, s: bytes, c: seq<Piece>)
    requires Plain(a) && Plain(b) && Plain(c) && LF !in s
    ensures Plain(a + b + [Text(s)] + c)
  {
    PlainConcat(a, b);
    PlainConcat(a + b, [Text(s)]);
    PlainConcat(a + b + [Text(s)], c);
  }

  /** Without the breaks, the field reads as it should, but for the second space after a long name. */
  lemma FieldText(k: bytes, v: seq<bytes>)
    ensures Unfolded(FieldPieces(k, v)) == Field(k, v)
    ensures OneLine(k, v) ==> Plain(FieldPieces(k, v))
    ensures Field(k, v) == Intended(k, v) <==> |k| < 74 || v == []
  {
    hide Unfolded, Plain, FoldValues;
    if v == [] {
      assert [Text(k), Text([COLON])] == [] + [] + [Text(k)] + [Text([COLON])];
      NoPieces();
      FourParts([], [], k, [Text([COLON])]);
      OneText([COLON]);
      if OneLine(k, v) {
        TwoPlain(k, [COLON]);
      }
    } else {
      var values := FoldValues(v, true, 76 - |k| - 2);
      var start := [Text(k), Text([COLON, SP])];
      FoldValuesText(v, true, 76 - |k| - 2);
      assert start == [] + [Text(k)] + [Text([COLON, SP])] + [];
      NoPieces();
      FourParts([], [Text(k)], [COLON, SP], []);
      OneText(k);
      RenderedConcat(start, values);
      FieldShapes(k, v, Unfolded(start), Unfolded(values));
      if OneLine(k, v) {
        TwoPlain(k, [COLON, SP]);
        PlainConcat(start, values);
      }
    }
  }

  lemma TwoPlain(a: bytes, b: bytes)
    requires LF !in a && LF !in b
    ensures Plain([Text(a), Text(b)])
  {
  }

  lemma FieldShapes(k: bytes, v: seq<bytes>, start: bytes, values: bytes)
    requires v != [] && start == [] + (k + [COLON, SP]) + []
    requires values == (if 76 - |k| - 2 < 1 then [SP] else []) + v[0] + JoinRest(v[1..])
    ensures start + values == Field(k, v)
    ensures Field(k, v) == Intended(k, v) <==> |k| < 74
  {
    hide JoinRest;
    var name, rest := k + [COLON, SP], JoinRest(v[1..]);
    assert start == name;
    if |k| >= 74 {
      Regroup(name, [SP], v[0], rest);
      assert |name + [SP] + v[0] + rest| == |name + v[0] + rest| + 1;
    } else {
      Regroup(name, [], v[0], rest);
      assert name + [] == name;
    }
  }

  lemma Regroup(a: bytes, b: bytes, c: bytes, d: bytes)
    ensures a + (b + c + d) == a + b + c + d
  {
  }

  /** Header fields on one line are folded so that unfolding, by section 2.2.3 of RFC 5322, gives the field
      back; it is the intended one exactly when the name is shorter than 74 characters or there is no value. */
  lemma HeaderUnfolds(k: bytes, v: seq<bytes>)
    requires OneLine(k, v)
    ensures Unfold(Rendered(FieldPieces(k, v)) + CRLF) == Field(k, v) + CRLF
    ensures Unfold(Rendered(FieldPieces(k, v)) + CRLF) == Intended(k, v) + CRLF <==> |k| < 74 || v == []
  {
    hide Unfold, Rendered, FieldPieces, Field, Intended, OneLine;
    FieldText(k, v);
    UnfoldGivesText(FieldPieces(k, v));
    SameEnd(Field(k, v), Intended(k, v));
  }

  lemma SameEnd(a: bytes, b: bytes)
    ensures a + CRLF == b + CRLF <==> a == b
  {
    if a + CRLF == b + CRLF {
      assert a == (a + CRLF)[..|a|] && b == (b + CRLF)[..|b|];
    }
  }

  // ------------------------------------------------------------------ how wide the lines are

  const LINE_WIDTH: nat := 76

  /** No line is wider than the limit; the first has some characters already. */
  predicate Narrow(s: bytes, used: nat)
    decreases |s|
  {
    if s == [] then used <= LINE_WIDTH
    else if |s| >= 2 && s[0] == CR && s[1] == LF then used <= LINE_WIDTH && Narrow(s[2..], 0)
    else Narrow(s[1..], used + 1)
  }

  lemma {:induction false} NarrowFrom(line: bytes, rest: bytes, used: nat)
    requires 10 !in line
    ensures Narrow(line + [13, 10] + rest, used) <==> used + |line| <= 76 && Narrow(rest, 0)
    decreases |line|
  {
    var s := line + [13, 10] + rest;
    if line == [] {
      assert s[2..] == rest;
    } else {
      assert s[1..] == line[1..] + [13, 10] + rest;
      assert |line| > 1 ==> s[1] == line[1];
      NarrowFrom(line[1..], rest, used + 1);
    }
  }

  /** Every line has at most 76 characters. */
  lemma NarrowIs(line: bytes, rest: bytes)
    requires 10 !in line
    ensures Narrow(line + Ascii("\r\n") + rest, 0) <==> |line| <= 76 && Narrow(rest, 0)
    ensures Narrow([], 0)
  {
    assert Ascii("\r\n") == [13, 10];
    NarrowFrom(line, rest, 0);
  }

  /** The same of pieces, for the lines that inserted breaks end, and the characters on the last line. */
  predicate FoldsNarrow(pieces: seq<Piece>, used: nat)
  {
    if pieces == [] then true
    else if pieces[0].Text? then FoldsNarrow(pieces[1..], used + |pieces[0].s|)
    else used <= LINE_WIDTH && FoldsNarrow(pieces[1..], 0)
  }

  function Used(pieces: seq<Piece>, used: nat): nat
  {
    if pieces == [] then used
    else Used(pieces[1..], if pieces[0].Text? then used + |pieces[0].s| else 0)
  }

  predicate AllNarrow(pieces: seq<Piece>, used: nat)
  {
    FoldsNarrow(pieces, used) && Used(pieces, used) <= LINE_WIDTH
  }

  lemma {:induction false} NarrowText(s: bytes, rest: bytes, used: nat)
    requires LF !in s && (rest != [] ==> rest[0] != LF)
    ensures Narrow(s + rest, used) <==> Narrow(rest, used + |s|)
  {
    if s == [] {
      assert s + rest == rest;
    } else {
      var all := s + rest;
      assert all[1..] == s[1..] + rest;
      NarrowText(s[1..], rest, used + 1);
      assert |all| >= 2 ==> all[1] != LF;
    }
  }

  lemma NarrowBreak(more: bytes, used: nat)
    ensures Narrow(CRLF + more, used) <==> used <= LINE_WIDTH && Narrow(more, 0)
  {
    assert (CRLF + more)[2..] == more;
  }

  /** The lines of a rendered field are those of its pieces. */
  lemma {:induction false} NarrowPieces(pieces: seq<Piece>, used: nat)
    requires Plain(pieces)
    ensures Narrow(Rendered(pieces) + CRLF, used) <==> AllNarrow(pieces, used)
    decreases |pieces|
  {
    hide Narrow, Plain;
    if pieces == [] {
      assert [] + CRLF == CRLF && CRLF + [] == CRLF;
      NarrowBreak([], used);
      NarrowEnd();
    } else {
      var rest := pieces[1..];
      var more := Rendered(rest) + CRLF;
      PlainRest(pieces);
      StartsWithout(rest);
      if pieces[0].Text? {
        var t := pieces[0].s;
        PlainFirst(pieces);
        NarrowText(t, more, used);
        assert Rendered(pieces) + CRLF == t + more;
        NarrowPieces(rest, used + |t|);
      } else {
        NarrowBreak(more, used);
        assert Rendered(pieces) + CRLF == CRLF + more;
        NarrowPieces(rest, 0);
      }
    }
  }

  lemma NarrowEnd()
    ensures Narrow([], 0)
  {
  }

  lemma PlainFirst(pieces: seq<Piece>)
    requires Plain(pieces) && pieces != [] && pieces[0].Text?
    ensures LF !in pieces[0].s
  {
  }

  lemma {:induction false} NarrowConcat(a: seq<Piece>, b: seq<Piece>, used: nat)
    ensures Used(a + b, used) == Used(b, Used(a, used))
    ensures FoldsNarrow(a + b, used) <==> FoldsNarrow(a, used) && FoldsNarrow(b, Used(a, used))
    decreases |a|
  {
    if a == [] {
      assert a + b == b;
    } else {
      assert (a + b)[1..] == a[1..] + b;
      NarrowConcat(a[1..], b, if a[0].Text? then used + |a[0].s| else 0);
    }
  }

  /** A line that is too wide stays so, whatever follows. */
  lemma {:induction false} TooWide(pieces: seq<Piece>, used: nat)
    requires used > LINE_WIDTH
    ensures !AllNarrow(pieces, used)
    decreases |pieces|
  {
    if pieces != [] && pieces[0].Text? {
      TooWide(pieces[1..], used + |pieces[0].s|);
    }
  }

  predicate SpaceFrom(s: bytes, i: nat)
    requires i + LINE_WIDTH <= |s|
  {
    SP in s[i..i + LINE_WIDTH]
  }

  /** No word is longer than a folded line: there is a space in every 76 characters. */
  predicate WordsFit(s: bytes)
  {
    forall i: nat :: i + LINE_WIDTH <= |s| ==> SpaceFrom(s, i)
  }

  /** And the value or its first word fits the room on the line it starts on. */
  predicate ValueFits(s: bytes, room: int)
  {
    WordsFit(s) && (|s| <= room || room == FOLDED_WIDTH || (0 <= room < |s| && SP in s[..room]))
  }

  lemma WordsAfter(s: bytes, i: nat)
    requires i < |s| && i < LINE_WIDTH && s[i] == SP
    ensures WordsFit(s) <==> WordsFit(s[i + 1..])
  {
    var rest := s[i + 1..];
    if WordsFit(s) {
      forall j: nat | j + LINE_WIDTH <= |rest|
        ensures SpaceFrom(rest, j)
      {
        assert SpaceFrom(s, i + 1 + j);
        assert rest[j..j + LINE_WIDTH] == s[i + 1 + j..i + 1 + j + LINE_WIDTH];
      }
    }
    if WordsFit(rest) {
      forall j: nat | j + LINE_WIDTH <= |s|
        ensures SpaceFrom(s, j)
      {
        if j <= i {
          assert s[j..j + LINE_WIDTH][i - j] == SP;
        } else {
          assert SpaceFrom(rest, j - i - 1);
          assert s[j..j + LINE_WIDTH] == rest[j - i - 1..j - i - 1 + LINE_WIDTH];
        }
      }
    }
  }

  lemma {:induction false} NoBreakBefore(s: bytes, k: nat)
    ensures forall i :: k <= i < FirstBreak(s, k) ==> s[i] != SP
    ensures FirstBreak(s, k) >= k || FirstBreak(s, k) == |s|
    decreases |s| - k
  {
    if k < |s| && s[k] != SP && s[k] != LF {
      NoBreakBefore(s, k + 1);
    }
  }

  /** Where a value without newlines is broken, and when the line is then within its room. */
  lemma BreakOfValue(s: bytes, room: int)
    requires LF !in s && room <= FOLDED_WIDTH && room < |s|
    ensures var b := BreakOf(s, room);
            && !b.AfterNewline?
            && (b.Nowhere? ==> !ValueFits(s, room))
            && (b.AtSpace? ==>
                  && (ValueFits(s, room) ==> b.i <= room)
                  && (b.i <= room ==> (ValueFits(s, room) <==> WordsFit(s[b.i + 1..]))))
  {
    hide WordsFit;
    var b := BreakOf(s, room);
    LastSpaceIsLast(s, room);
    NoBreakBefore(s, 75);
    if room >= 0 && LastSpace(s, room) >= 0 {
      assert s[..room][LastSpace(s, room)] == SP;
      WordsAfter(s, b.i);
    } else {
      assert 0 <= room ==> SP !in s[..room];
      if b.AtSpace? && b.i == 75 {
        WordsAfter(s, b.i);
      } else if room == FOLDED_WIDTH {
        LongWord(s);
      }
    }
  }

  lemma LongWord(s: bytes)
    requires |s| >= LINE_WIDTH && forall i :: 0 <= i < LINE_WIDTH ==> s[i] != SP
    ensures !WordsFit(s)
  {
    assert !SpaceFrom(s, 0);
  }

  lemma NarrowLine(first: bytes, used: nat)
    ensures FoldsNarrow([Text(first), Fold, Text([SP])], used) <==> used + |first| <= LINE_WIDTH
    ensures Used([Text(first), Fold, Text([SP])], used) == 1
  {
    var p := [Text(first), Fold, Text([SP])];
    assert p == [Text(first)] + ([Fold] + [Text([SP])]);
    NarrowOne(first, used);
    NarrowOne([SP], 0);
    assert [Fold][1..] == [];
    NarrowConcat([Fold], [Text([SP])], used + |first|);
    NarrowConcat([Text(first)], [Fold] + [Text([SP])], used);
  }

  lemma NarrowOne(t: bytes, used: nat)
    ensures FoldsNarrow([Text(t)], used) && Used([Text(t)], used) == used + |t|
  {
    assert [Text(t)][1..] == [];
  }

  /** One value is folded into lines within the limit exactly when it fits. */
  lemma {:induction false} FoldValueNarrow(s: bytes, room: int, used: nat)
    requires LF !in s && room <= FOLDED_WIDTH && used == LINE_WIDTH - room
    ensures var r := FoldValue(s, room);
            && (FoldsNarrow(r.0, used) && Used(r.0, used) + |r.1| <= LINE_WIDTH <==> ValueFits(s, room))
            && (ValueFits(s, room) ==> Used(r.0, used) == LINE_WIDTH - r.2 && r.2 <= FOLDED_WIDTH)
    decreases |s|, room < 0
  {
    hide FoldValue, BreakOf, FoldsNarrow, Used, WordsFit;
    FoldValueStep(s, room);
    if |s| <= room {
      ShortFits(s);
      NoneNarrow(used);
    } else {
      var b := BreakOf(s, room);
      BreakOfValue(s, room);
      var rest, p := RestOf(s, b), PiecesOf(s, b);
      var r := FoldValue(rest, FOLDED_WIDTH);
      NarrowConcat(p, r.0, used);
      if b.AtSpace? {
        NarrowLine(s[..b.i], used);
        FoldValueNarrow(rest, FOLDED_WIDTH, 1);
      } else {
        NarrowOne(s, used);
        FoldValueStep(rest, FOLDED_WIDTH);
        NoneNarrow(used + |s|);
      }
    }
  }

  /** Where a line that is too long for its room is broken: at the last space within it, or right behind it. */
  function LineEnd(s: bytes, room: int): nat
    requires room < |s|
  {
    if LastSpace(s, room) >= 0 then LastSpace(s, room) else FOLDED_WIDTH
  }

  /** The last space of a value at which it is broken, or -1. */
  function LastBreak(s: bytes, room: int): (b: int)
    ensures -1 <= b < |s|
    decreases |s|, room < 0
  {
    if |s| <= room || LineEnd(s, room) >= |s| then -1
    else
      var i := LineEnd(s, room);
      var b := LastBreak(s[i + 1..], FOLDED_WIDTH);
      if b < 0 then i else i + 1 + b
  }

  /** The room that a value leaves on its last line. */
  function RoomAfter(s: bytes, room: int): int
  {
    var b := LastBreak(s, room);
    if b < 0 then room - |s| else FOLDED_WIDTH - (|s| - b - 1)
  }

  lemma RoomAfterLine(s: bytes, room: int, i: nat)
    requires room < |s| && i < |s| && i == LineEnd(s, room)
    ensures RoomAfter(s, room) == RoomAfter(s[i + 1..], FOLDED_WIDTH)
  {
  }

  /** The last break is at a space, and what follows it fits a line. */
  lemma {:induction false} LastLineFits(s: bytes, room: int)
    requires LF !in s && room <= FOLDED_WIDTH && ValueFits(s, room)
    ensures LastBreak(s, room) >= 0 ==> s[LastBreak(s, room)] == SP
    ensures 0 <= RoomAfter(s, room) <= FOLDED_WIDTH
    decreases |s|, room < 0
  {
    hide WordsFit, BreakOf;
    if |s| > room {
      var i := LineEnd(s, room);
      LineBreaks(s, room);
      RoomAfterLine(s, room, i);
      LastLineFits(s[i + 1..], FOLDED_WIDTH);
    }
  }

  /** A value that fits is broken where its line ends. */
  lemma LineBreaks(s: bytes, room: int)
    requires LF !in s && room <= FOLDED_WIDTH && room < |s| && ValueFits(s, room)
    ensures LineEnd(s, room) < |s| && BreakOf(s, room) == AtSpace(LineEnd(s, room))
    ensures WordsFit(s[LineEnd(s, room) + 1..])
  {
    hide WordsFit;
    BreakOfValue(s, room);
    NoBreakBefore(s, 75);
  }

  /** It is the room the folding of the value ends with. */
  lemma {:induction false} RoomAfterIs(s: bytes, room: int)
    requires LF !in s && room <= FOLDED_WIDTH && ValueFits(s, room)
    ensures var r := FoldValue(s, room); r.2 - |r.1| == RoomAfter(s, room)
    decreases |s|, room < 0
  {
    hide FoldValue, BreakOf, WordsFit, LastBreak, RoomAfter;
    FoldValueStep(s, room);
    if |s| > room {
      var i := LineEnd(s, room);
      LineBreaks(s, room);
      RoomAfterLine(s, room, i);
      RoomAfterIs(s[i + 1..], FOLDED_WIDTH);
    } else {
      RoomAfterShort(s, room);
    }
  }

  lemma RoomAfterShort(s: bytes, room: int)
    requires |s| <= room
    ensures RoomAfter(s, room) == room - |s|
  {
  }

  lemma NoneNarrow(used: nat)
    ensures FoldsNarrow([], used) && Used([], used) == used
  {
  }

  lemma ShortFits(s: bytes)
    requires |s| < LINE_WIDTH
    ensures WordsFit(s)
  {
  }

  /** Every value fits the room there is when its turn comes. A comma is written before the line is broken,
      and before the room for it is looked at. */
  predicate ValuesFit(v: seq<bytes>, first: bool, room: int)
    decreases |v|
  {
    if v == [] then room >= 0
    else
      && (if room < 1 then first && room == 0 && ValueFits(v[0], FOLDED_WIDTH)
          else ValueFits(v[0], if first then room else room - 2))
      && ValuesFit(v[1..], false, RoomAfter(v[0], AfterSeparator(first, room)))
  }

  lemma SeparatorNarrow(first: bool, room: int, used: nat)
    requires used == LINE_WIDTH - room
    ensures FoldsNarrow(Separator(first, room), used) <==> room >= 1 || (first && room == 0)
    ensures Used(Separator(first, room), used) == LINE_WIDTH - AfterSeparator(first, room)
  {
    if room < 1 {
      NarrowLine(if first then [] else [COMMA], used);
    } else if first {
      NoneNarrow(used);
    } else {
      NarrowOne([COMMA, SP], used);
    }
  }

  lemma NoNewline(s: bytes)
    requires LF !in s
    ensures LastIndex(s, LF) == -1
  {
    if s != [] && LastIndex(s, LF) >= 0 {
      LastIndexIs(s, LF);
    }
  }

  lemma {:induction false} LastIndexIs(s: bytes, c: byte)
    ensures LastIndex(s, c) >= 0 ==> s[LastIndex(s, c)] == c
  {
    if s != [] && s[|s| - 1] != c {
      LastIndexIs(s[..|s| - 1], c);
    }
  }

  lemma {:induction false} FoldValuesNarrow(v: seq<bytes>, first: bool, room: int, used: nat)
    requires AllOneLine(v) && room <= FOLDED_WIDTH && used == LINE_WIDTH - room
    ensures AllNarrow(FoldValues(v, first, room), used) <==> ValuesFit(v, first, room)
    decreases |v|
  {
    hide FoldValue, FoldsNarrow, Used, ValueFits, Separator, FoldValues, RoomAfter;
    if v == [] {
      FoldValuesEnd(v, room);
      NoneNarrow(used);
    } else {
      FoldValuesStep(v, first, room);
      var left := AfterSeparator(first, room);
      var r := FoldValue(v[0], left);
      var sep, tail := Separator(first, room), FoldValues(v[1..], false, CharsLeft(r.1, r.2));
      var last := Used(r.0, LINE_WIDTH - left) + |r.1|;
      SeparatorNarrow(first, room, used);
      FoldValueText(v[0], left);
      NoNewline(r.1);
      FoldValueNarrow(v[0], left, LINE_WIDTH - left);
      NarrowConcat(sep + r.0 + [Text(r.1)], tail, used);
      NarrowConcat(sep + r.0, [Text(r.1)], used);
      NarrowConcat(sep, r.0, used);
      NarrowOne(r.1, Used(r.0, LINE_WIDTH - left));
      if ValueFits(v[0], left) {
        RoomAfterIs(v[0], left);
        FoldValuesNarrow(v[1..], false, CharsLeft(r.1, r.2), last);
      } else if last > LINE_WIDTH {
        TooWide(tail, last);
      }
    }
  }

  /** Every line of a written field is within 76 characters exactly when its values fit one after the other. */
  lemma HeaderStaysWithin(k: bytes, v: seq<bytes>)
    requires OneLine(k, v)
    ensures Narrow(Rendered(FieldPieces(k, v)) + CRLF, 0)
       <==> if v == [] then |k| <= 75 else ValuesFit(v, true, 74 - |k|)
  {
    hide Narrow, FoldValues, ValuesFit, FoldsNarrow, Used, Plain;
    FieldText(k, v);
    NarrowPieces(FieldPieces(k, v), 0);
    if v == [] {
      TwoNarrow(k, [COLON]);
    } else {
      var start := [Text(k), Text([COLON, SP])];
      TwoNarrow(k, [COLON, SP]);
      NarrowConcat(start, FoldValues(v, true, 76 - |k| - 2), 0);
      FoldValuesNarrow(v, true, 74 - |k|, |k| + 2);
    }
  }

  lemma TwoNarrow(a: bytes, b: bytes)
    ensures FoldsNarrow([Text(a), Text(b)], 0) && Used([Text(a), Text(b)], 0) == |a| + |b|
  {
    NarrowOne(a, 0);
    NarrowOne(b, |a|);
    NarrowConcat([Text(a)], [Text(b)], 0);
    assert [Text(a)] + [Text(b)] == [Text(a), Text(b)];
  }

  /** For a field with one value: the name is no longer than 74 characters, no word longer than 75, and the
      first word fits behind the name unless the line is broken right there. */
  lemma OneValueStaysWithin(k: bytes, value: bytes)
    requires OneLine(k, [value])
    ensures Narrow(Rendered(FieldPieces(k, [value])) + CRLF, 0)
       <==> |k| <= 74 && WordsFit(value)
            && (|k| == 74 || |value| <= 74 - |k| || (|value| > 74 - |k| && SP in value[..74 - |k|]))
  {
    hide Narrow, FieldPieces, WordsFit, FoldValue, RoomAfter;
    HeaderStaysWithin(k, [value]);
    var room := 74 - |k|;
    var left := AfterSeparator(true, room);
    var r := FoldValue(value, left);
    assert [value][0] == value && [value][1..] == [];
    FoldValueText(value, left);
    NoNewline(r.1);
    if left <= FOLDED_WIDTH && ValueFits(value, left) {
      LastLineFits(value, left);
    }
  }

  /** An input that overruns: a first value that leaves room for one more character or none. */
  lemma CommaOverruns(k: bytes, a: bytes, b: bytes)
    requires OneLine(k, [a, b]) && |k| < 74 && 73 <= |k| + |a| <= 74
    ensures !Narrow(Rendered(FieldPieces(k, [a, b])) + CRLF, 0)
  {
    hide Narrow, FieldPieces, WordsFit;
    HeaderStaysWithin(k, [a, b]);
    var v := [a, b];
    assert v[0] == a && v[1..] == [b] && v[1..][0] == b;
    RoomAfterShort(a, 74 - |k|);
  }

  // ------------------------------------------------------------------ the writer

  class MessageWriter {
    var out: bytes

    // What was written, with the inserted breaks told apart.
    ghost var pieces: seq<Piece>

    ghost predicate Valid()
      reads this
    {
      out == Rendered(pieces)
    }

    constructor ()
      ensures Valid() && pieces == []
    {
      out, pieces := [], [];
    }

    method WriteString(s: bytes)
      requires Valid()
      modifies this
      ensures Valid() && pieces == old(pieces) + [Text(s)]
    {
      RenderedConcat(pieces, [Text(s)]);
      OneText(s);
      out := out + s;
      pieces := pieces + [Text(s)];
    }

    /** Text up to where a line is broken, and the break. */
    method WriteBroken(first: bytes)
      requires Valid()
      modifies this
      ensures Valid() && pieces == old(pieces) + [Text(first), Fold, Text([SP])]
    {
      RenderedConcat(pieces, [Text(first), Fold, Text([SP])]);
      Broken(first);
      assert out + first + (CRLF + [SP]) == out + (first + CRLF + [SP]);
      out := out + first;
      out := out + (CRLF + [SP]);
      pieces := pieces + [Text(first), Fold, Text([SP])];
    }

    /** writeLine: one line of s goes out, and the rest is returned. */
    method WriteLine(s: bytes, charsLeft: int) returns (rest: bytes)
      requires Valid() && charsLeft < |s|
      modifies this
      ensures Valid() && pieces == old(pieces) + PiecesOf(s, BreakOf(s, charsLeft))
      ensures rest == RestOf(s, BreakOf(s, charsLeft))
    {
      hide Rendered, LastSpace, FirstBreak;
      var i: int := IndexByte(s, LF);
      if i != -1 && i < charsLeft {
        WriteString(s[..i + 1]);
        return s[i + 1..];
      }
      i := charsLeft - 1;
      while i >= 0
        invariant i < |s|
        invariant LastSpace(s, charsLeft) == LastSpace(s, i + 1)
        invariant Valid() && pieces == old(pieces)
        decreases i
      {
        LastSpaceStep(s, i + 1);
        if s[i] == SP {
          WriteBroken(s[..i]);
          return s[i + 1..];
        }
        i := i - 1;
      }
      LastSpaceStep(s, i + 1);
      i := 75;
      while i < |s|
        invariant 75 <= i
        invariant FirstBreak(s, 75) == FirstBreak(s, i)
        invariant Valid() && pieces == old(pieces)
        decreases |s| - i
      {
        FirstBreakStep(s, i);
        if s[i] == SP {
          WriteBroken(s[..i]);
          return s[i + 1..];
        }
        if s[i] == LF {
          WriteString(s[..i + 1]);
          return s[i + 1..];
        }
        i := i + 1;
      }
      FirstBreakStep(s, i);
      WriteString(s);
      return [];
    }

    /** writeHeader. */
    method WriteHeader(k: bytes, v: seq<bytes>)
      requires Valid()
      modifies this
      ensures Valid() && pieces == old(pieces) + FieldPieces(k, v) + [Text(CRLF)]
    {
      hide Rendered, FoldValues, ValuePieces;
      ghost var start := pieces;
      WriteString(k);
      if |v| == 0 {
        WriteString([COLON]);
        WriteString(CRLF);
        assert pieces == start + FieldPieces(k, v) + [Text(CRLF)];
        return;
      }
      WriteString([COLON, SP]);
      var charsLeft := 76 - |k| - 2;
      ghost var all := start + FieldPieces(k, v);
      assert all == pieces + FoldValues(v, true, charsLeft);
      for i := 0 to |v|
        invariant Valid()
        invariant all == pieces + FoldValues(v[i..], i == 0, charsLeft)
      {
        assert v[i..][0] == v[i] && v[i..][1..] == v[i + 1..];
        FoldValuesStep(v[i..], i == 0, charsLeft);
        ghost var now, r := pieces, ValuePieces(v[i], i == 0, charsLeft);
        Regrouped(now, r.0, FoldValues(v[i + 1..], false, r.1));
        charsLeft := WriteValue(v[i], i == 0, charsLeft);
      }
      FoldValuesEnd(v[|v|..], charsLeft);
      assert pieces + [] == pieces;
      WriteString(CRLF);
    }

    /** The body of writeHeader's loop over the values. */
    method WriteValue(value: bytes, first: bool, room: int) returns (charsLeft: int)
      requires Valid()
      modifies this
      ensures Valid()
      ensures pieces == old(pieces) + ValuePieces(value, first, room).0
      ensures charsLeft == ValuePieces(value, first, room).1
    {
      hide Rendered, FoldValue, CharsLeft;
      charsLeft := room;
      ghost var start, r := pieces, FoldValue(value, AfterSeparator(first, room));
      if charsLeft < 1 {
        WriteBroken(if first then [] else [COMMA]);
        charsLeft := 75;
      } else if !first {
        WriteString([COMMA, SP]);
        charsLeft := charsLeft - 2;
      }
      assert pieces == start + Separator(first, room);
      var s;
      s, charsLeft := WriteLines(value, charsLeft);
      WriteString(s);
      assert start + (Separator(first, room) + r.0 + [Text(r.1)]) == start + Separator(first, room) + r.0 + [Text(r.1)];
      charsLeft := CharsLeft(s, charsLeft);
    }

    /** writeHeader's inner loop: a value too long for the line is folded. */
    method WriteLines(value: bytes, room: int) returns (s: bytes, charsLeft: int)
      requires Valid()
      modifies this
      ensures Valid()
      ensures var r := FoldValue(value, room); pieces == old(pieces) + r.0 && s == r.1 && charsLeft == r.2
    {
      hide Rendered, BreakOf, PiecesOf, RestOf, FoldValue;
      s, charsLeft := value, room;
      ghost var done: seq<Piece> := [];
      assert done + FoldValue(value, room).0 == FoldValue(value, room).0;
      while |s| > charsLeft
        invariant Valid() && pieces == old(pieces) + done
        invariant var r, all := FoldValue(s, charsLeft), FoldValue(value, room);
                  all == (done + r.0, r.1, r.2)
        decreases |s|, charsLeft < 0
      {
        FoldValueStep(s, charsLeft);
        ghost var p, before := PiecesOf(s, BreakOf(s, charsLeft)), done;
        done := done + p;
        s := WriteLine(s, charsLeft);
        charsLeft := 75;
        assert before + (p + FoldValue(s, charsLeft).0) == done + FoldValue(s, charsLeft).0;
      }
      FoldValueStep(s, charsLeft);
      assert done + [] == done;
    }
  }

  lemma FoldValueStep(s: bytes, charsLeft: int)
    ensures |s| <= charsLeft ==> FoldValue(s, charsLeft) == ([], s, charsLeft)
    ensures |s| > charsLeft ==>
              var rest := RestOf(s, BreakOf(s, charsLeft));
              var r := FoldValue(rest, FOLDED_WIDTH);
              && FoldValue(s, charsLeft) == (PiecesOf(s, BreakOf(s, charsLeft)) + r.0, r.1, r.2)
              && |rest| <= |s| && (s != [] ==> |rest| < |s|)
  {
    hide BreakOf, PiecesOf;
  }

  lemma Regrouped(a: seq<Piece>, b: seq<Piece>, c: seq<Piece>)
    ensures a + (b + c) == a + b + c
  {
  }

  lemma FoldValuesStep(v: seq<bytes>, first: bool, charsLeft: int)
    requires v != []
    ensures var r := ValuePieces(v[0], first, charsLeft);
            FoldValues(v, first, charsLeft) == r.0 + FoldValues(v[1..], false, r.1)
  {
    hide ValuePieces;
  }

  lemma FoldValuesEnd(v: seq<bytes>, charsLeft: int)
    requires v == []
    ensures forall first :: FoldValues(v, first, charsLeft) == []
  {
  }

  lemma LastSpaceStep(s: bytes, n: int)
    requires n <= |s|
    ensures LastSpace(s, n) == if n <= 0 then -1 else if s[n - 1] == SP then n - 1 else LastSpace(s, n - 1)
  {
  }

  lemma FirstBreakStep(s: bytes, k: nat)
    ensures FirstBreak(s, k) == if k >= |s| then |s| else if s[k] == SP || s[k] == LF then k else FirstBreak(s, k + 1)
  {
  }
}
