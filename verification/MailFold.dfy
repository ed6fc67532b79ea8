/**
 The writer that breaks base64 text into lines of 76 characters (base64LineWriter of
 gomail.v2/writeto.go).
 */
module MailFold {
  import opened Base

  const MAX_LINE_LEN: nat := 76

  // ------------------------------------------------------------------ base64 lines

  /** The lines of some text: all but the last have 76 characters. */
  function LinesOf(data: bytes): (lines: seq<bytes>)
    ensures lines != []
    decreases |data|
  {
    if |data| <= MAX_LINE_LEN then [data] else [data[..MAX_LINE_LEN]] + LinesOf(data[MAX_LINE_LEN..])
  }

  function JoinLines(lines: seq<bytes>): bytes
    requires lines != []
  {
    if |lines| == 1 then lines[0] else lines[0] + CRLF + JoinLines(lines[1..])
  }

  function Flatten(lines: seq<bytes>): bytes
  {
    if lines == [] then [] else lines[0] + Flatten(lines[1..])
  }

  /** The text with its line breaks. */
  function Folded(data: bytes): bytes
  {
    JoinLines(LinesOf(data))
  }

  lemma FoldedStep(data: bytes)
    ensures |data| <= MAX_LINE_LEN ==> Folded(data) == data
    ensures |data| > MAX_LINE_LEN ==> Folded(data) == data[..MAX_LINE_LEN] + CRLF + Folded(data[MAX_LINE_LEN..])
  {
    if |data| > MAX_LINE_LEN {
      assert LinesOf(data)[1..] == LinesOf(data[MAX_LINE_LEN..]);
    }
  }

  /** The length of the line being written. */
  function LastLen(data: bytes): (n: nat)
    ensures n <= MAX_LINE_LEN
    decreases |data|
  {
    if |data| <= MAX_LINE_LEN then |data| else LastLen(data[MAX_LINE_LEN..])
  }

  /** Every line but the last has exactly 76 characters, the last is no longer, and only empty text has an
      empty line; put together they are the text. */
  lemma {:induction false} LinesAreRight(data: bytes)
    ensures var lines := LinesOf(data);
            && Flatten(lines) == data
            && (forall i :: 0 <= i < |lines| - 1 ==> |lines[i]| == 76)
            && |lines[|lines| - 1]| == LastLen(data) <= 76
            && (data != [] ==> LastLen(data) > 0)
    decreases |data|
  {
    if |data| <= MAX_LINE_LEN {
      assert [data][1..] == [];
      assert data + [] == data;
    } else {
      var rest := data[MAX_LINE_LEN..];
      LinesAreRight(rest);
      var lines := LinesOf(data);
      assert lines[1..] == LinesOf(rest);
      assert data[..MAX_LINE_LEN] + rest == data;
      forall i | 0 <= i < |lines| - 1
        ensures |lines[i]| == MAX_LINE_LEN
      {
        assert i > 0 ==> lines[i] == LinesOf(rest)[i - 1];
      }
    }
  }

  /** Deleting every CRLF. */
  function WithoutCrlf(s: bytes): bytes
  {
    if |s| >= 2 && s[0] == CR && s[1] == LF then WithoutCrlf(s[2..])
    else if s == [] then []
    else [s[0]] + WithoutCrlf(s[1..])
  }

  predicate HoldsCrlf(s: bytes)
  {
    exists i: nat :: i + 1 < |s| && CrlfAt(s, i)
  }

  predicate CrlfAt(s: bytes, i: nat)
    requires i + 1 < |s|
  {
    s[i] == CR && s[i + 1] == LF
  }

  lemma {:induction false} DeletesExactly(s: bytes)
    ensures |WithoutCrlf(s)| <= |s|
    ensures WithoutCrlf(s) == s <==> !HoldsCrlf(s)
  {
    if |s| >= 2 && s[0] == CR && s[1] == LF {
      DeletesExactly(s[2..]);
      assert CrlfAt(s, 0);
    } else if s != [] {
      var rest := s[1..];
      DeletesExactly(rest);
      if HoldsCrlf(s) {
        var i: nat :| i + 1 < |s| && CrlfAt(s, i);
        assert CrlfAt(rest, i - 1);
      }
      if HoldsCrlf(rest) {
        var i: nat :| i + 1 < |rest| && CrlfAt(rest, i);
        assert CrlfAt(s, i + 1);
      }
      assert s == [s[0]] + rest;
      SameRest(s[0], WithoutCrlf(rest), rest);
    }
  }

  lemma SameRest(c: byte, a: bytes, b: bytes)
    ensures [c] + a == [c] + b <==> a == b
  {
    assert ([c] + a)[1..] == a && ([c] + b)[1..] == b;
  }

  /** An inserted break is deleted by itself, also after a carriage return and before a newline. */
  lemma {:induction false} WithoutBreak(a: bytes, b: bytes)
    ensures WithoutCrlf(a + CRLF + b) == WithoutCrlf(a) + WithoutCrlf(b)
  {
    var all := a + CRLF + b;
    if a == [] {
      assert all == CRLF + b && all[2..] == b;
    } else if |a| >= 2 && a[0] == CR && a[1] == LF {
      WithoutBreak(a[2..], b);
      assert all[2..] == a[2..] + CRLF + b;
    } else {
      WithoutBreak(a[1..], b);
      assert all[0] == a[0] && all[1] == if |a| > 1 then a[1] else CR;
      assert all[1..] == a[1..] + CRLF + b;
    }
  }

  /** No line holds a line break of its own. */
  predicate LinesUnbroken(data: bytes)
  {
    forall i :: 0 <= i < |LinesOf(data)| ==> !HoldsCrlf(LinesOf(data)[i])
  }

  lemma UnbrokenStep(data: bytes)
    ensures |data| <= MAX_LINE_LEN ==> (LinesUnbroken(data) <==> !HoldsCrlf(data))
    ensures |data| > MAX_LINE_LEN ==>
              (LinesUnbroken(data) <==> !HoldsCrlf(data[..MAX_LINE_LEN]) && LinesUnbroken(data[MAX_LINE_LEN..]))
  {
    hide HoldsCrlf;
    if |data| <= MAX_LINE_LEN {
      assert LinesOf(data)[0] == data;
    } else {
      var lines, rest := LinesOf(data), LinesOf(data[MAX_LINE_LEN..]);
      assert lines[0] == data[..MAX_LINE_LEN] && lines[1..] == rest;
      assert forall i :: 0 <= i < |rest| ==> rest[i] == lines[i + 1];
      if !HoldsCrlf(data[..MAX_LINE_LEN]) && LinesUnbroken(data[MAX_LINE_LEN..]) {
        forall i | 0 <= i < |lines|
          ensures !HoldsCrlf(lines[i])
        {
          if i > 0 {
            assert lines[i] == rest[i - 1];
          }
        }
      }
    }
  }

  /** Deleting the line breaks gives the text back exactly when no line of it holds a CRLF of its own. */
  lemma {:induction false} FoldedGivesBack(data: bytes)
    ensures |WithoutCrlf(Folded(data))| <= |data|
    ensures WithoutCrlf(Folded(data)) == data <==> LinesUnbroken(data)
    decreases |data|
  {
    hide Folded, WithoutCrlf, HoldsCrlf, LinesUnbroken;
    FoldedStep(data);
    UnbrokenStep(data);
    if |data| <= MAX_LINE_LEN {
      DeletesExactly(data);
    } else {
      var first, rest := data[..MAX_LINE_LEN], data[MAX_LINE_LEN..];
      FoldedGivesBack(rest);
      DeletesExactly(first);
      WithoutBreak(first, Folded(rest));
      SameParts(WithoutCrlf(first), WithoutCrlf(Folded(rest)), first, rest);
      assert first + rest == data;
    }
  }

  lemma SameParts(a: bytes, b: bytes, c: bytes, d: bytes)
    requires |a| <= |c| && |b| <= |d|
    ensures a + b == c + d <==> a == c && b == d
  {
    if a + b == c + d {
      assert |a + b| == |c + d|;
      assert a == (a + b)[..|a|] && c == (c + d)[..|c|];
      assert b == (a + b)[|a|..] && d == (c + d)[|c|..];
    }
  }

  /** So it does for base64 text, which has no carriage return. */
  lemma Base64GivesBack(data: bytes)
    requires CR !in data
    ensures WithoutCrlf(Folded(data)) == data
  {
    hide Folded, WithoutCrlf;
    FoldedGivesBack(data);
    LinesWithoutCr(data);
  }

  lemma {:induction false} LinesWithoutCr(data: bytes)
    requires CR !in data
    ensures LinesUnbroken(data)
    decreases |data|
  {
    UnbrokenStep(data);
    if |data| > MAX_LINE_LEN {
      LinesWithoutCr(data[MAX_LINE_LEN..]);
    }
  }

  /** What is still to be written of p when the current line has n characters. */
  function Breaking(n: nat, p: bytes): bytes
    requires n <= MAX_LINE_LEN
    decreases |p|, n
  {
    if |p| + n <= MAX_LINE_LEN then p
    else p[..MAX_LINE_LEN - n] + CRLF + Breaking(0, p[MAX_LINE_LEN - n..])
  }

  lemma {:induction false} BreakingGoesOn(a: bytes, p: bytes)
    ensures Folded(a + p) == Folded(a) + Breaking(LastLen(a), p)
    decreases |a|
  {
    hide Folded;
    FoldedStep(a);
    FoldedStep(a + p);
    if |a| <= MAX_LINE_LEN {
      BreakingFirst(a, p);
    } else {
      var first, rest := a[..MAX_LINE_LEN], a[MAX_LINE_LEN..];
      BreakingGoesOn(rest, p);
      assert (a + p)[..MAX_LINE_LEN] == first && (a + p)[MAX_LINE_LEN..] == rest + p;
      assert first + CRLF + (Folded(rest) + Breaking(LastLen(rest), p))
          == first + CRLF + Folded(rest) + Breaking(LastLen(rest), p);
    }
  }

  lemma {:induction false} BreakingFirst(a: bytes, p: bytes)
    requires |a| <= MAX_LINE_LEN
    ensures Folded(a + p) == a + Breaking(|a|, p)
    decreases |p|, |a|
  {
    hide Folded, Breaking;
    var k := MAX_LINE_LEN - |a|;
    FoldedStep(a + p);
    BreakingStep(|a|, p);
    if |p| > k {
      var first, rest := p[..k], p[k..];
      FirstLine(a, p, k);
      BreakingFirst([], rest);
      assert [] + rest == rest && [] + Breaking(0, rest) == Breaking(0, rest);
      Regroup(a, first, CRLF, Folded(rest));
    }
  }

  lemma BreakingStep(n: nat, p: bytes)
    requires n <= MAX_LINE_LEN
    ensures Breaking(n, p) == if |p| + n <= MAX_LINE_LEN then p
                              else p[..MAX_LINE_LEN - n] + CRLF + Breaking(0, p[MAX_LINE_LEN - n..])
  {
  }

  lemma FirstLine(a: bytes, p: bytes, k: nat)
    requires k <= |p|
    ensures (a + p)[..|a| + k] == a + p[..k] && (a + p)[|a| + k..] == p[k..]
  {
  }

  lemma Regroup(a: bytes, b: bytes, c: bytes, d: bytes)
    ensures a + b + c + d == a + (b + c + d)
  {
  }

  lemma {:induction false} LastLenGoesOn(a: bytes, p: bytes)
    ensures LastLen(a + p) == LastOf(LastLen(a), p)
    decreases |a|
  {
    if |a| > MAX_LINE_LEN {
      LastLenGoesOn(a[MAX_LINE_LEN..], p);
      assert (a + p)[MAX_LINE_LEN..] == a[MAX_LINE_LEN..] + p;
    } else {
      LastLenFirst(a, p);
    }
  }

  function LastOf(n: nat, p: bytes): nat
    requires n <= MAX_LINE_LEN
    decreases |p|, n
  {
    if |p| + n <= MAX_LINE_LEN then |p| + n else LastOf(0, p[MAX_LINE_LEN - n..])
  }

  lemma {:induction false} LastLenFirst(a: bytes, p: bytes)
    requires |a| <= MAX_LINE_LEN
    ensures LastLen(a + p) == LastOf(|a|, p)
    decreases |p|, |a|
  {
    var k := MAX_LINE_LEN - |a|;
    if |p| > k {
      assert (a + p)[MAX_LINE_LEN..] == p[k..];
      LastLenFirst([], p[k..]);
      assert [] + p[k..] == p[k..];
    }
  }

  /** base64LineWriter, over a sink that takes everything. */
  class Base64LineWriter {
    var out: bytes
    var lineLen: nat
    ghost var written: bytes

    /** What has gone out only depends on what was written, not on the calls that wrote it. */
    ghost predicate Valid()
      reads this
    {
      out == Folded(written) && lineLen == LastLen(written)
    }

    constructor ()
      ensures Valid() && written == []
    {
      out, lineLen, written := [], 0, [];
    }

    method Write(data: bytes) returns (n: nat)
      requires Valid()
      modifies this
      ensures Valid() && written == old(written) + data && n == |data|
    {
      hide Folded, LastLen;
      BreakingGoesOn(written, data);
      LastLenGoesOn(written, data);
      written := written + data;
      n := 0;
      var p := data;
      while |p| + lineLen > MAX_LINE_LEN
        invariant lineLen <= MAX_LINE_LEN && n + |p| == |data| && written == old(written) + data
        invariant out + Breaking(lineLen, p) == Folded(written)
        invariant LastOf(lineLen, p) == LastLen(written)
        decreases |p|, lineLen
      {
        var k := MAX_LINE_LEN - lineLen;
        ghost var rest := Breaking(0, p[k..]);
        assert out + (p[..k] + CRLF + rest) == out + p[..k] + CRLF + rest;
        out := out + p[..k];
        out := out + CRLF;
        p := p[k..];
        n := n + k;
        lineLen := 0;
      }
      out := out + p;
      lineLen := lineLen + |p|;
      n := n + |p|;
    }
  }
}
