/**
 The buffered writer (bufio.v1/bufio.go): no byte is lost, repeated or reordered between the calls
 that accept it and the sink, however short or failing the sink's writes are.
 */
module BufioWriter {
  import opened Base

  const DEFAULT_BUF_SIZE: nat := 4096

  datatype Error = ShortWrite | SinkError(code: nat)

  /** What the sink does with one write: it takes at most n bytes and may report an error. */
  datatype Turn = Turn(n: nat, err: Option<nat>)

  /** Any io.Writer that takes at most what it is given; once its turns are over it takes everything. */
  class Sink {
    var written: bytes
    var turns: seq<Turn>

    constructor (turns: seq<Turn>)
      ensures written == [] && this.turns == turns
    {
      this.written, this.turns := [], turns;
    }

    method Write(p: bytes) returns (n: nat, err: Option<Error>)
      modifies this
      ensures n == if old(turns) == [] then |p| else Min(old(turns)[0].n, |p|)
      ensures err == if old(turns) == [] || old(turns)[0].err.None? then None else Some(SinkError(old(turns)[0].err.value))
      ensures n <= |p| && written == old(written) + p[..n]
      ensures turns == if old(turns) == [] then [] else old(turns)[1..]
    {
      if turns == [] {
        written := written + p;
        assert p[..|p|] == p;
        return |p|, None;
      }
      n := Min(turns[0].n, |p|);
      written := written + p[..n];
      err := if turns[0].err.None? then None else Some(SinkError(turns[0].err.value));
      turns := turns[1..];
    }
  }

  /** The turn that explains an error: one that failed with it, or one shorter than the buffer. */
  predicate Explains(t: Turn, size: nat, e: Error)
  {
    match e
    case SinkError(code) => t.err == Some(code)
    case ShortWrite => t.err.None? && t.n < size
  }

  /** The turns taken between two states of the sink: none of them failed, or only the last one did, or was
      short, and explains the error. */
  ghost predicate Went(before: seq<Turn>, after: seq<Turn>, size: nat, err: Option<Error>)
  {
    var k := |before| - |after|;
    && k >= 0 && before[k..] == after
    && (err.None? ==> forall i :: 0 <= i < k ==> before[i].err.None?)
    && (err.Some? ==> k > 0 && (forall i :: 0 <= i < k - 1 ==> before[i].err.None?) && Explains(before[k - 1], size, err.value))
  }

  lemma NothingWent(turns: seq<Turn>, size: nat)
    ensures Went(turns, turns, size, None)
  {
  }

  lemma WentOn(a: seq<Turn>, b: seq<Turn>, c: seq<Turn>, size: nat, err: Option<Error>)
    requires Went(a, b, size, None) && Went(b, c, size, err)
    ensures Went(a, c, size, err)
  {
    var i, j := |a| - |b|, |b| - |c|;
    assert a[i..][j..] == a[i + j..];
    assert forall k :: 0 <= k < j ==> a[i + k] == b[k];
    assert forall k :: i <= k < i + j ==> a[k] == b[k - i];
  }

  lemma FewerTurns(before: seq<Turn>, after: seq<Turn>, size: nat, err: Option<Error>)
    requires Went(before, after, size, err)
    ensures |after| <= |before|
  {
  }

  /** What flush makes of one write of m bytes, of which the sink took k. */
  lemma Explained(turns: seq<Turn>, size: nat, m: nat, k: nat, e: Option<Error>)
    requires m <= size && k == if turns == [] then m else Min(turns[0].n, m)
    requires var err := if turns == [] then None else turns[0].err;
             e == if err.Some? then Some(SinkError(err.value)) else if k < m then Some(ShortWrite) else None
    ensures Went(turns, if turns == [] then [] else turns[1..], size, e)
  {
  }

  /** And what a direct write makes of it, where a short write is no error. */
  lemma Passed(turns: seq<Turn>, size: nat, e: Option<Error>)
    requires e == if turns == [] || turns[0].err.None? then None else Some(SinkError(turns[0].err.value))
    ensures Went(turns, if turns == [] then [] else turns[1..], size, e)
  {
  }

  class Writer {
    const buf: array<byte>
    const wr: Sink
    var n: nat
    var err: Option<Error>

    ghost predicate Valid()
      reads this
    {
      n <= buf.Length && buf.Length > 0
    }

    /** Everything accepted so far: what the sink has, then what is buffered. */
    ghost function Accepted(): bytes
      requires Valid()
      reads this, buf, wr
    {
      wr.written + buf[..n]
    }

    /** NewWriterSize, on a sink that is not itself a Writer. */
    constructor (wr: Sink, size: int)
      ensures Valid() && this.wr == wr && fresh(buf) && err == None
      ensures buf.Length == if size <= 0 then 4096 else size
      ensures Accepted() == wr.written
    {
      this.wr := wr;
      buf := new byte[if size <= 0 then DEFAULT_BUF_SIZE else size];
      n, err := 0, None;
      new;
      assert wr.written + buf[..0] == wr.written;
    }

    function Available(): int
      reads this, buf
    {
      buf.Length - n
    }

    /** copy into the free part of the buffer. */
    method Append(p: bytes) returns (k: nat)
      requires Valid()
      modifies this`n, buf
      ensures Valid() && k == Min(old(Available()), |p|) && n == old(n) + k
      ensures Accepted() == old(Accepted()) + p[..k]
    {
      k := Min(Available(), |p|);
      ghost var before := buf[..n];
      forall i | 0 <= i < k {
        buf[n + i] := p[i];
      }
      n := n + k;
      assert buf[..n] == before + p[..k];
      assert wr.written + (before + p[..k]) == wr.written + before + p[..k];
    }

    /** flush: on an error the bytes the sink did not take move to the front and stay. */
    method Flush() returns (e: Option<Error>)
      requires Valid()
      modifies this`n, this`err, buf, wr
      ensures Valid() && Accepted() == old(Accepted())
      ensures e == err && n <= old(n)
      ensures err.None? ==> n == 0 && wr.written == Accepted()
      ensures old(err).Some? ==> err == old(err) && n == old(n) && wr.written == old(wr.written) && wr.turns == old(wr.turns)
      ensures old(err).None? ==> Went(old(wr.turns), wr.turns, buf.Length, err)
    {
      hide Went, Explains;
      if err.Some? {
        return err;
      }
      NothingWent(wr.turns, buf.Length);
      if n == 0 {
        assert wr.written + buf[..0] == wr.written;
        return None;
      }
      ghost var held := buf[..n];
      var k;
      k, e := wr.Write(buf[..n]);
      assert held == held[..k] + held[k..];
      if k < n && e.None? {
        e := Some(ShortWrite);
      }
      Explained(old(wr.turns), buf.Length, n, k, e);
      if e.Some? {
        if 0 < k < n {
          forall i | 0 <= i < n - k {
            buf[i] := buf[k + i];
          }
        }
        n := n - k;
        err := e;
        assert buf[..n] == held[k..];
        Regrouped(old(wr.written), held, k);
        return e;
      }
      n := 0;
      assert held[..k] == held;
      assert wr.written + buf[..0] == wr.written;
      return None;
    }

    /** Write's short cut for more than a whole buffer while nothing is buffered. */
    method WriteThrough(p: bytes) returns (k: nat)
      requires Valid() && n == 0 && err.None?
      modifies this`err, wr
      ensures Valid() && k <= |p| && Accepted() == old(Accepted()) + p[..k]
      ensures old(wr.turns) == [] ==> k == |p| && wr.turns == []
      ensures old(wr.turns) != [] ==> |wr.turns| < old(|wr.turns|)
      ensures Went(old(wr.turns), wr.turns, buf.Length, err)
    {
      hide Went, Explains;
      assert wr.written + buf[..0] == wr.written;
      NothingWent(wr.turns, buf.Length);
      k, err := wr.Write(p);
      Passed(old(wr.turns), buf.Length, err);
      assert wr.written + buf[..0] == wr.written;
    }

    /** Write: past the free space a full buffer is flushed, and nothing is buffered before a large write. */
    method Write(p: bytes) returns (nn: nat, e: Option<Error>)
      requires Valid()
      modifies this`n, this`err, buf, wr
      ensures Valid() && e == err
      ensures nn <= |p| && Accepted() == old(Accepted()) + p[..nn]
      ensures err.None? ==> nn == |p|
      ensures old(err).Some? ==> nn == 0 && err == old(err) && n == old(n) && wr.written == old(wr.written) && wr.turns == old(wr.turns)
      ensures old(err).None? ==> Went(old(wr.turns), wr.turns, buf.Length, err)
    {
      hide Went, Explains;
      NothingWent(wr.turns, buf.Length);
      nn := 0;
      ghost var before, failed := Accepted(), err;
      var rest := p;
      assert before + p[..0] == before;
      while |rest| > Available() && err.None?
        invariant Valid() && nn <= |p| && rest == p[nn..]
        invariant Accepted() == before + p[..nn]
        invariant failed.Some? ==> nn == 0 && err == failed && n == old(n) && wr.written == old(wr.written) && wr.turns == old(wr.turns)
        invariant failed.None? ==> Went(old(wr.turns), wr.turns, buf.Length, err)
        decreases err.None?, |wr.turns|, |rest|, n
      {
        ghost var turns := wr.turns;
        var k;
        if n == 0 {
          k := WriteThrough(rest);
        } else {
          k := Append(rest);
          var flushed := Flush();
          FewerTurns(turns, wr.turns, buf.Length, err);
        }
        WentOn(old(wr.turns), turns, wr.turns, buf.Length, err);
        Advance(before, p, nn, k);
        nn := nn + k;
        rest := rest[k..];
      }
      if err.Some? {
        return nn, err;
      }
      var k := Append(rest);
      Advance(before, p, nn, k);
      nn := nn + k;
      return nn, None;
    }

    /** WriteString: the same without the short cut. */
    method WriteString(s: bytes) returns (nn: nat, e: Option<Error>)
      requires Valid()
      modifies this`n, this`err, buf, wr
      ensures Valid() && e == err
      ensures nn <= |s| && Accepted() == old(Accepted()) + s[..nn]
      ensures err.None? ==> nn == |s|
      ensures old(err).Some? ==> nn == 0 && err == old(err) && n == old(n) && wr.written == old(wr.written) && wr.turns == old(wr.turns)
      ensures old(err).None? ==> Went(old(wr.turns), wr.turns, buf.Length, err)
    {
      hide Went, Explains;
      NothingWent(wr.turns, buf.Length);
      nn := 0;
      ghost var before, failed := Accepted(), err;
      var rest := s;
      assert before + s[..0] == before;
      while |rest| > Available() && err.None?
        invariant Valid() && nn <= |s| && rest == s[nn..]
        invariant Accepted() == before + s[..nn]
        invariant failed.Some? ==> nn == 0 && err == failed && n == old(n) && wr.written == old(wr.written) && wr.turns == old(wr.turns)
        invariant failed.None? ==> Went(old(wr.turns), wr.turns, buf.Length, err)
        decreases err.None?, |rest|, n
      {
        ghost var turns := wr.turns;
        var k := Append(rest);
        var flushed := Flush();
        WentOn(old(wr.turns), turns, wr.turns, buf.Length, err);
        Advance(before, s, nn, k);
        nn := nn + k;
        rest := rest[k..];
      }
      if err.Some? {
        return nn, err;
      }
      var k := Append(rest);
      Advance(before, s, nn, k);
      nn := nn + k;
      return nn, None;
    }
  }

  lemma Regrouped(written: bytes, held: bytes, k: nat)
    requires k <= |held|
    ensures written + held[..k] + held[k..] == written + held
  {
    assert held[..k] + held[k..] == held;
    assert written + held[..k] + held[k..] == written + (held[..k] + held[k..]);
  }

  lemma Advance(before: bytes, p: bytes, nn: nat, k: nat)
    requires nn + k <= |p|
    ensures before + p[..nn] + p[nn..][..k] == before + p[..nn + k]
    ensures p[nn..][k..] == p[nn + k..]
  {
    assert p[..nn] + p[nn..][..k] == p[..nn + k];
    assert before + p[..nn] + p[nn..][..k] == before + (p[..nn] + p[nn..][..k]);
  }
}
