/**
 The buffered reader (bufio.v1/bufio.go): a window [r, w) sliding over a fixed buffer that is refilled
 from a source. Whatever the chunks the source delivers and whatever the size of the buffer, the
 reader behaves like the plain stream of bytes and errors that is still ahead of it.
 */
module BufioReader {
  import opened Base

  const MIN_READ_BUFFER_SIZE: nat := 16
  const MAX_CONSECUTIVE_EMPTY_READS: nat := 100

  datatype SourceError = EOF | Other(code: nat)

  datatype Error = Source(e: SourceError) | NoProgress | BufferFull

  // ------------------------------------------------------------------ the source

  /** What one call of the source's Read delivers: some bytes, perhaps none, perhaps with an error. */
  datatype Chunk = Chunk(data: bytes, err: Option<SourceError>)

  /** Any io.Reader, by the chunks it is going to deliver; once they are gone it reports the error of the last
      one for ever, or EOF if that had none. */
  class ByteSource {
    var chunks: seq<Chunk>

    constructor (chunks: seq<Chunk>)
      ensures this.chunks == chunks
    {
      this.chunks := chunks;
    }

    /** Read into p from lo on: a chunk that does not fit stays, with its error, for the next call. */
    method Read(p: array<byte>, lo: nat) returns (n: nat, err: Option<SourceError>)
      requires lo < p.Length
      modifies this, p
      ensures n == if old(chunks) == [] then 0 else Min(|old(chunks)[0].data|, p.Length - lo)
      ensures p[..lo] == old(p[..lo])
      ensures p[lo..lo + n] == if old(chunks) == [] then [] else old(chunks)[0].data[..n]
      ensures err == if old(chunks) == [] then Some(EOF)
                     else if n == |old(chunks)[0].data| then old(chunks)[0].err else None
      ensures chunks == After(old(chunks), n)
    {
      if chunks == [] {
        return 0, Some(EOF);
      }
      var c := chunks[0];
      n := Min(|c.data|, p.Length - lo);
      Copy(p, lo, c.data[..n]);
      chunks := After(chunks, n);
      err := if n == |c.data| then c.err else None;
    }
  }

  /** The chunks after the first. The error that ends a source is what every later read reports too. */
  function Rest(chunks: seq<Chunk>): seq<Chunk>
    requires chunks != []
  {
    if |chunks| == 1 && chunks[0].err.Some? then [Chunk([], chunks[0].err)] else chunks[1..]
  }

  /** The chunks left once n bytes of the first have been delivered. */
  function After(chunks: seq<Chunk>, n: nat): seq<Chunk>
    requires chunks != [] ==> n <= |chunks[0].data|
  {
    if chunks == [] then []
    else if n == |chunks[0].data| then Rest(chunks)
    else [Chunk(chunks[0].data[n..], chunks[0].err)] + chunks[1..]
  }

  // ------------------------------------------------------------------ the plain stream

  /** A stream as its reader sees it: the bytes before the next error, that error, and the chunks
      that would be read after it. */
  datatype Flow = Flow(data: bytes, err: Error, rest: seq<Chunk>)

  function Prepend(data: bytes, f: Flow): Flow
  {
    f.(data := data + f.data)
  }

  /** The stream a list of chunks makes when idle empty reads have just been made. The hundredth
      empty read in a row is an error of the reader's own. */
  function FlowOf(chunks: seq<Chunk>, idle: nat): (f: Flow)
    requires idle <= MAX_CONSECUTIVE_EMPTY_READS
    ensures f.err != BufferFull
    decreases |chunks|
  {
    if idle == MAX_CONSECUTIVE_EMPTY_READS then Flow([], NoProgress, chunks)
    else if chunks == [] then Flow([], Source(EOF), [])
    else
      var c := chunks[0];
      if c.err.Some? then Flow(c.data, Source(c.err.value), Rest(chunks))
      else if c.data == [] then FlowOf(chunks[1..], idle + 1)
      else Prepend(c.data, FlowOf(chunks[1..], 0))
  }

  /** Reads without an error. */
  predicate AllQuiet(chunks: seq<Chunk>)
  {
    forall i :: 0 <= i < |chunks| ==> chunks[i].err.None?
  }

  /** Among any hundred reads in a row one delivers something, counting the empty ones just made. */
  predicate KeepsGoing(chunks: seq<Chunk>, idle: nat)
  {
    && (forall i :: 0 <= i && i + 100 <= |chunks| ==> Delivers(chunks, i, 100))
    && (|chunks| >= 100 - idle ==> 100 >= idle && Delivers(chunks, 0, 100 - idle))
  }

  predicate Delivers(chunks: seq<Chunk>, i: int, n: int)
    requires 0 <= i && i + n <= |chunks|
  {
    exists k :: i <= k < i + n && chunks[k].data != []
  }

  /** However the bytes before an error are cut, the stream is those bytes and that error. */
  lemma {:induction false} FlowIsTheBytes(chunks: seq<Chunk>, last: Chunk, rest: seq<Chunk>, idle: nat)
    requires AllQuiet(chunks) && KeepsGoing(chunks, idle) && idle < 100 && last.err.Some?
    ensures FlowOf(chunks + ([last] + rest), idle)
         == Flow(Concat(chunks) + last.data, Source(last.err.value), Rest([last] + rest))
    decreases |chunks|
  {
    hide KeepsGoing, FlowOf;
    var all := chunks + ([last] + rest);
    if chunks == [] {
      assert all == [last] + rest;
      assert [] + last.data == last.data;
      FlowOfLast(last, rest, idle);
    } else {
      var tail, next := chunks[1..], if chunks[0].data == [] then idle + 1 else 0;
      assert forall i :: 0 <= i < |tail| ==> tail[i] == chunks[i + 1];
      GoesOn(chunks, idle);
      FlowIsTheBytes(tail, last, rest, next);
      FlowOfOneMore(chunks[0], tail + ([last] + rest), idle);
      SplitFirst(chunks, [last] + rest);
      Regroup(chunks[0].data, Concat(tail), last.data);
    }
  }

  lemma SplitFirst(a: seq<Chunk>, b: seq<Chunk>)
    requires a != []
    ensures a + b == [a[0]] + (a[1..] + b)
  {
  }

  lemma Regroup(a: bytes, b: bytes, c: bytes)
    ensures a + (b + c) == a + b + c
  {
  }

  lemma FlowOfLast(last: Chunk, rest: seq<Chunk>, idle: nat)
    requires idle < 100 && last.err.Some?
    ensures FlowOf([last] + rest, idle) == Flow(last.data, Source(last.err.value), Rest([last] + rest))
  {
  }

  lemma FlowOfOneMore(c: Chunk, rest: seq<Chunk>, idle: nat)
    requires idle < 100 && c.err.None?
    ensures FlowOf([c] + rest, idle) == if c.data == [] then FlowOf(rest, idle + 1) else Prepend(c.data, FlowOf(rest, 0))
  {
    assert ([c] + rest)[1..] == rest;
  }

  lemma GoesOn(chunks: seq<Chunk>, idle: nat)
    requires KeepsGoing(chunks, idle) && chunks != [] && idle < 100
    ensures var next := if chunks[0].data == [] then idle + 1 else 0;
            next < 100 && KeepsGoing(chunks[1..], next)
  {
    var tail, next := chunks[1..], if chunks[0].data == [] then idle + 1 else 0;
    forall i | 0 <= i && i + 100 <= |tail|
      ensures Delivers(tail, i, 100)
    {
      assert Delivers(chunks, i + 1, 100);
      var k :| i + 1 <= k < i + 101 && chunks[k].data != [];
      assert tail[k - 1] == chunks[k];
    }
    if |tail| >= 100 - next {
      if next == 0 {
        assert Delivers(tail, 0, 100);
      } else {
        assert Delivers(chunks, 0, 100 - idle);
        var k :| 0 <= k < 100 - idle && chunks[k].data != [];
        assert tail[k - 1] == chunks[k];
      }
    }
  }

  /** A hundred empty reads in a row are the reader's own error. */
  lemma {:induction false} HundredEmptyReads(n: nat, idle: nat, rest: seq<Chunk>)
    requires n + idle == 100
    ensures FlowOf(seq(n, i => Chunk([], None)) + rest, idle) == Flow([], NoProgress, rest)
    decreases n
  {
    var chunks := seq(n, i => Chunk([], None)) + rest;
    if n == 0 {
      assert chunks == rest;
    } else {
      assert chunks[1..] == seq(n - 1, i => Chunk([], None)) + rest;
      HundredEmptyReads(n - 1, idle + 1, rest);
    }
  }

  /** One read of at least one byte leaves the rest of the stream ahead. */
  lemma FlowAfterRead(chunks: seq<Chunk>, idle: nat, n: nat)
    requires idle < MAX_CONSECUTIVE_EMPTY_READS && chunks != []
    requires 0 < n <= |chunks[0].data|
    requires n < |chunks[0].data| || chunks[0].err.None?
    ensures FlowOf(chunks, idle) == Prepend(chunks[0].data[..n], FlowOf(After(chunks, n), 0))
  {
    var c := chunks[0];
    if n == |c.data| {
      assert c.data[..n] == c.data;
    } else {
      var left := Chunk(c.data[n..], c.err);
      assert After(chunks, n)[0] == left && After(chunks, n)[1..] == chunks[1..];
      assert c.data[..n] + c.data[n..] == c.data;
      if c.err.None? {
        var f := FlowOf(chunks[1..], 0);
        assert c.data[..n] + (c.data[n..] + f.data) == c.data + f.data;
      }
    }
  }

  /** The stream ahead of a reader that holds some bytes and perhaps an error. */
  function AheadOf(held: bytes, err: Option<Error>, chunks: seq<Chunk>): (f: Flow)
    requires err != Some(BufferFull)
    ensures f.err != BufferFull
  {
    if err.Some? then Flow(held, err.value, chunks) else Prepend(held, FlowOf(chunks, 0))
  }

  /** One read into a reader that holds some bytes. */
  lemma FillStep(held: bytes, chunks: seq<Chunk>, idle: nat, n: nat, got: bytes, e: Option<SourceError>)
    requires idle < MAX_CONSECUTIVE_EMPTY_READS
    requires if chunks == [] then n == 0 && got == [] && e == Some(EOF)
             else n <= |chunks[0].data| && got == chunks[0].data[..n]
                  && e == (if n == |chunks[0].data| then chunks[0].err else None)
    requires n == 0 && chunks != [] ==> chunks[0].data == []
    ensures var all := Prepend(held, FlowOf(chunks, idle));
            && (e.Some? ==> all == AheadOf(held + got, Some(Source(e.value)), After(chunks, n)))
            && (e.None? && n > 0 ==> all == AheadOf(held + got, None, After(chunks, n)))
            && (e.None? && n == 0 ==> FlowOf(chunks, idle) == FlowOf(After(chunks, n), idle + 1))
  {
    if e.None? && n > 0 {
      FlowAfterRead(chunks, idle, n);
      var f := FlowOf(After(chunks, n), 0);
      assert held + got + f.data == held + (got + f.data);
    }
    if e.Some? && chunks != [] {
      assert got == chunks[0].data;
    }
  }

  /** What is held is the beginning of what is ahead, and may be taken from it. */
  lemma TakeHeld(held: bytes, k: nat, err: Option<Error>, chunks: seq<Chunk>)
    requires k <= |held| && err != Some(BufferFull)
    ensures var f := AheadOf(held, err, chunks);
            && held <= f.data
            && Took(f, k, held[..k], AheadOf(held[k..], err, chunks))
            && (err.Some? ==> f.data == held && f.err == err.value)
  {
    if err.None? {
      var f := FlowOf(chunks, 0);
      assert (held + f.data)[k..] == held[k..] + f.data;
      assert (held + f.data)[..k] == held[..k];
    }
  }

  /** Everything held and the error are taken: the stream starts anew. */
  lemma TakeAll(held: bytes, err: Error, chunks: seq<Chunk>)
    requires err != BufferFull
    ensures TookAll(AheadOf(held, Some(err), chunks), held, Some(err), AheadOf([], None, chunks))
  {
    var f := FlowOf(chunks, 0);
    assert [] + f.data == f.data;
  }

  /** k bytes were taken from the stream. */
  predicate Took(before: Flow, k: nat, line: bytes, after: Flow)
  {
    k <= |before.data| && line == before.data[..k] && after == before.(data := before.data[k..])
  }

  /** All the bytes before the error were taken, and the error was reported. */
  predicate TookAll(before: Flow, line: bytes, err: Option<Error>, after: Flow)
  {
    line == before.data && err == Some(before.err) && after == FlowOf(before.rest, 0)
  }

  /** The first occurrence in a prefix is the first occurrence. */
  lemma IndexInPrefix(held: bytes, data: bytes, c: byte)
    requires held <= data
    ensures IndexByte(held, c) >= 0 ==> IndexByte(data, c) == IndexByte(held, c)
    ensures IndexByte(held, c) < 0 ==> IndexByte(data, c) < 0 || IndexByte(data, c) >= |held|
  {
    IndexByteOfConcat(held, data[|held|..], c);
    assert data == held + data[|held|..];
  }

  // ------------------------------------------------------------------ what the reads promise

  /** ReadSlice with a buffer of size bytes. When the stream ahead fills the buffer exactly, without
      the delimiter, the chunks decide which of the two errors is reported first. */
  predicate SliceRead(size: nat, delim: byte, before: Flow, line: bytes, err: Option<Error>, after: Flow)
  {
    var i := IndexByte(before.data, delim);
    if 0 <= i < size then err == None && Took(before, i + 1, line, after)
    else
      || (size <= |before.data| && err == Some(BufferFull) && Took(before, size, line, after))
      || (|before.data| <= size && TookAll(before, line, err, after))
  }

  /** ReadBytes: through the first delimiter, or everything with the error; nothing depends on the
      chunks or on the buffer. */
  predicate BytesRead(delim: byte, before: Flow, line: bytes, err: Option<Error>, after: Flow)
  {
    var i := IndexByte(before.data, delim);
    if i >= 0 then err == None && Took(before, i + 1, line, after) else TookAll(before, line, err, after)
  }

  /** ReadN for a non-negative count: exactly n bytes, everything with the error, or a full buffer. */
  predicate ExactlyRead(size: nat, n: nat, before: Flow, line: bytes, err: Option<Error>, after: Flow)
  {
    if n <= size && n <= |before.data| then err == None && Took(before, n, line, after)
    else
      || (size < n && size <= |before.data| && err == Some(BufferFull) && Took(before, size, line, after))
      || (|before.data| <= size && TookAll(before, line, err, after))
  }

  /** What ReadSlice returns for what is held is what it promises for what is ahead. */
  lemma SliceDecides(size: nat, delim: byte, held: bytes, err: Option<Error>, chunks: seq<Chunk>)
    requires |held| <= size && err != Some(BufferFull)
    ensures var i, before := IndexByte(held, delim), AheadOf(held, err, chunks);
            && (i >= 0 ==> SliceRead(size, delim, before, held[..i + 1], None, AheadOf(held[i + 1..], err, chunks)))
            && (i < 0 && err.Some? ==> SliceRead(size, delim, before, held, err, AheadOf([], None, chunks)))
            && (i < 0 && |held| == size ==> SliceRead(size, delim, before, held, Some(BufferFull), AheadOf([], err, chunks)))
  {
    hide FlowOf, AheadOf, IndexByte, Took, TookAll;
    var i, before := IndexByte(held, delim), AheadOf(held, err, chunks);
    TakeHeld(held, 0, err, chunks);
    IndexInPrefix(held, before.data, delim);
    if i >= 0 {
      TakeHeld(held, i + 1, err, chunks);
    } else {
      TakeHeld(held, |held|, err, chunks);
      assert held[..|held|] == held && held[|held|..] == [];
      if err.Some? {
        TakeAll(held, err.value, chunks);
      }
    }
  }

  lemma CountDecides(size: nat, n: nat, held: bytes, err: Option<Error>, chunks: seq<Chunk>)
    requires |held| <= size && err != Some(BufferFull)
    ensures var before := AheadOf(held, err, chunks);
            && (n <= |held| ==> ExactlyRead(size, n, before, held[..n], None, AheadOf(held[n..], err, chunks)))
            && (|held| < n && err.Some? ==> ExactlyRead(size, n, before, held, err, AheadOf([], None, chunks)))
            && (|held| < n && |held| == size ==>
                  ExactlyRead(size, n, before, held, Some(BufferFull), AheadOf([], err, chunks)))
  {
    hide FlowOf, AheadOf, Took, TookAll;
    TakeHeld(held, 0, err, chunks);
    if n <= |held| {
      TakeHeld(held, n, err, chunks);
    } else {
      TakeHeld(held, |held|, err, chunks);
      assert held[..|held|] == held && held[|held|..] == [];
      if err.Some? {
        TakeAll(held, err.value, chunks);
      }
    }
  }

  /** A line without the carriage return at its end. */
  function Chomp(line: bytes): bytes
  {
    if line != [] && line[|line| - 1] == CR then line[..|line| - 1] else line
  }

  /** ReadLine: a whole line; or a full buffer less a final carriage return, which stays ahead; or what
      is left without a newline, in which case the error is only reported when there is nothing. */
  predicate LineRead(size: nat, before: Flow, line: bytes, isPrefix: bool, err: Option<Error>, after: Flow)
    requires size > 0
  {
    var i := IndexByte(before.data, LF);
    if 0 <= i < size then
      && err == None && !isPrefix && line == Chomp(before.data[..i]) && after == before.(data := before.data[i + 1..])
    else
      || (size <= |before.data| && isPrefix && err == None
          && Took(before, if before.data[size - 1] == CR then size - 1 else size, line, after))
      || (|before.data| <= size && !isPrefix && line == before.data
          && err == (if line == [] then Some(before.err) else None) && after == FlowOf(before.rest, 0))
  }

  /** Read: some of the stream, or the rest of it with the error. Only a read past the buffer may
      return nothing at all, for one empty read; that leaves the stream as it is, unless there were
      a hundred of them. */
  predicate SomeRead(size: nat, room: nat, before: Flow, line: bytes, err: Option<Error>, after: Flow)
  {
    && |line| <= room
    && (|| (err == None && line != [] && Took(before, |line|, line, after))
        || TookAll(before, line, err, after)
        || (size <= room && err == None && line == [] && (after == before || Stuck(before))))
  }

  /** Nothing is ahead but a hundred empty reads. */
  predicate Stuck(f: Flow)
  {
    f.data == [] && f.err == NoProgress
  }

  lemma {:induction false} EmptyReadsBefore(chunks: seq<Chunk>, idle: nat, fewer: nat)
    requires fewer <= idle <= MAX_CONSECUTIVE_EMPTY_READS && !Stuck(FlowOf(chunks, idle))
    ensures FlowOf(chunks, fewer) == FlowOf(chunks, idle)
    decreases |chunks|
  {
    if chunks != [] && chunks[0].err.None? && chunks[0].data == [] {
      EmptyReadsBefore(chunks[1..], idle + 1, fewer + 1);
    }
  }

  // ------------------------------------------------------------------ conservation

  function Concat(chunks: seq<Chunk>): bytes
  {
    if chunks == [] then [] else chunks[0].data + Concat(chunks[1..])
  }

  /** All the bytes a stream will ever deliver. */
  function AllOf(f: Flow): bytes
  {
    f.data + Concat(f.rest)
  }

  lemma {:induction false} FlowKeepsAll(chunks: seq<Chunk>, idle: nat)
    requires idle <= MAX_CONSECUTIVE_EMPTY_READS
    ensures AllOf(FlowOf(chunks, idle)) == Concat(chunks)
    decreases |chunks|
  {
    if idle == MAX_CONSECUTIVE_EMPTY_READS || chunks == [] {
    } else {
      var c := chunks[0];
      if c.err.Some? {
        assert |chunks| == 1 ==> chunks[1..] == [] && Rest(chunks)[1..] == [];
      } else {
        if c.data == [] {
          FlowKeepsAll(chunks[1..], idle + 1);
          assert [] + Concat(chunks[1..]) == Concat(chunks[1..]);
        } else {
          FlowKeepsAll(chunks[1..], 0);
          var f := FlowOf(chunks[1..], 0);
          assert c.data + f.data + Concat(f.rest) == c.data + (f.data + Concat(f.rest));
        }
      }
    }
  }

  /** The stream ahead is what the reader holds and what the source has not delivered. */
  lemma AheadIsHeldAndUnread(held: bytes, err: Option<Error>, chunks: seq<Chunk>)
    requires err != Some(BufferFull)
    ensures AllOf(AheadOf(held, err, chunks)) == held + Concat(chunks)
  {
    if err.None? {
      FlowKeepsAll(chunks, 0);
      var f := FlowOf(chunks, 0);
      assert held + f.data + Concat(f.rest) == held + (f.data + Concat(f.rest));
    }
  }

  /** Whichever way bytes are taken, they and what is left make up the stream. */
  lemma TakingConserves(before: Flow, k: nat, line: bytes, err: Option<Error>, after: Flow)
    requires Took(before, k, line, after) || TookAll(before, line, err, after)
    ensures line + AllOf(after) == AllOf(before)
  {
    if Took(before, k, line, after) {
      assert line + (before.data[k..] + Concat(before.rest)) == line + before.data[k..] + Concat(before.rest);
      assert line + before.data[k..] == before.data;
    } else {
      FlowKeepsAll(before.rest, 0);
    }
  }

  /** Every read of the reader delivers the stream in order and loses nothing, under any chunking and
      any buffer size. */
  lemma ReadsConserve(size: nat, delim: byte, n: nat, before: Flow, line: bytes, err: Option<Error>, after: Flow)
    requires || SliceRead(size, delim, before, line, err, after)
             || BytesRead(delim, before, line, err, after)
             || ExactlyRead(size, n, before, line, err, after)
    ensures line + AllOf(after) == AllOf(before)
  {
    hide FlowOf, IndexByte;
    TakingConservesAny(before, line, err, after);
  }

  lemma TakingConservesAny(before: Flow, line: bytes, err: Option<Error>, after: Flow)
    requires (exists k :: Took(before, k, line, after)) || TookAll(before, line, err, after)
    ensures line + AllOf(after) == AllOf(before)
  {
    if TookAll(before, line, err, after) {
      TakingConserves(before, 0, line, err, after);
    } else {
      var k :| Took(before, k, line, after);
      TakingConserves(before, k, line, err, after);
    }
  }

  // ------------------------------------------------------------------ lines in fragments

  function LineOf(data: bytes): bytes
  {
    var i := IndexByte(data, LF);
    if i >= 0 then Chomp(data[..i]) else data
  }

  /** The stream after the line: past the newline, or past the error. */
  function AfterLine(f: Flow): Flow
  {
    var i := IndexByte(f.data, LF);
    if i >= 0 then f.(data := f.data[i + 1..]) else FlowOf(f.rest, 0)
  }

  /** Successive calls of ReadLine, all but the last of which return a prefix. */
  predicate Fragments(size: nat, flows: seq<Flow>, frags: seq<bytes>, err: Option<Error>)
    requires size > 0
  {
    && |flows| == |frags| + 1 && |frags| > 0
    && (forall i :: 0 <= i < |frags| - 1 ==> LineRead(size, flows[i], frags[i], true, None, flows[i + 1]))
    && LineRead(size, flows[|frags| - 1], frags[|frags| - 1], false, err, flows[|frags|])
  }

  /** A prefix leaves the rest of the same line ahead, even when it was cut before "\r\n". */
  lemma PrefixStep(size: nat, before: Flow, line: bytes, after: Flow)
    requires size > 1 && LineRead(size, before, line, true, None, after)
    ensures LineOf(before.data) == line + LineOf(after.data) && AfterLine(before) == AfterLine(after)
  {
    hide FlowOf, IndexByte, LineRead, Chomp, LineOf;
    PrefixCut(size, before, line, after);
    var j := IndexByte(after.data, LF);
    assert before.data == line + after.data;
    LineOfConcat(line, after.data);
    if j >= 0 {
      assert before.data[|line| + j + 1..] == after.data[j + 1..];
    }
  }

  lemma LineOfConcat(a: bytes, b: bytes)
    requires IndexByte(a + b, LF) == if IndexByte(b, LF) < 0 then -1 else |a| + IndexByte(b, LF)
    requires IndexByte(b, LF) == 0 ==> Chomp(a) == a
    ensures LineOf(a + b) == a + LineOf(b)
  {
    hide IndexByte, Chomp;
    var j := IndexByte(b, LF);
    if j >= 0 {
      assert (a + b)[..|a| + j] == a + b[..j];
      ChompConcat(a, b[..j]);
    }
  }

  /** What a prefix is: all of a full buffer without a newline, or all but a final carriage return. */
  lemma PrefixCut(size: nat, before: Flow, line: bytes, after: Flow)
    requires size > 1 && LineRead(size, before, line, true, None, after)
    ensures before == after.(data := line + after.data)
    ensures var j := IndexByte(after.data, LF);
            && IndexByte(before.data, LF) == (if j < 0 then -1 else |line| + j)
            && (j == 0 ==> Chomp(line) == line)
  {
    hide FlowOf, IndexByte;
    var k := |line|;
    assert k == if before.data[size - 1] == CR then size - 1 else size;
    NotBefore(before.data, size, LF);
    assert before.data[..k] <= before.data[..size];
    IndexBeyond(before.data, k, LF);
    if k < size {
      assert before.data[k..][0] == CR;
    }
  }

  lemma ChompConcat(a: bytes, b: bytes)
    requires b == [] ==> Chomp(a) == a
    ensures Chomp(a + b) == a + Chomp(b)
  {
    if b == [] {
      assert a + b == a;
    } else if b[|b| - 1] == CR {
      assert (a + b)[..|a + b| - 1] == a + b[..|b| - 1];
    }
  }

  /** However a line is cut into fragments, they make up the line without its terminator, and the
      stream goes on after it. */
  lemma {:induction false} FragmentsMakeTheLine(size: nat, flows: seq<Flow>, frags: seq<bytes>, err: Option<Error>)
    requires size >= MIN_READ_BUFFER_SIZE && Fragments(size, flows, frags, err)
    ensures Joined(frags) == LineOf(flows[0].data)
    ensures flows[|frags|] == AfterLine(flows[0])
    decreases |frags|
  {
    hide LineRead, LineOf, AfterLine;
    if |frags| == 1 {
      LastFragment(size, flows[0], frags[0], err, flows[1]);
      assert frags[1..] == [];
      assert frags[0] + [] == frags[0];
    } else {
      assert LineRead(size, flows[0], frags[0], true, None, flows[1]);
      PrefixStep(size, flows[0], frags[0], flows[1]);
      var f, g := flows[1..], frags[1..];
      forall i | 0 <= i < |g| - 1
        ensures LineRead(size, f[i], g[i], true, None, f[i + 1])
      {
        assert f[i] == flows[i + 1] && g[i] == frags[i + 1];
      }
      FragmentsMakeTheLine(size, f, g, err);
    }
  }

  lemma LastFragment(size: nat, before: Flow, line: bytes, err: Option<Error>, after: Flow)
    requires size > 0 && LineRead(size, before, line, false, err, after)
    ensures line == LineOf(before.data) && after == AfterLine(before)
  {
  }

  // ------------------------------------------------------------------ the reader

  class Reader {
    const buf: array<byte>
    const rd: ByteSource
    var r: nat
    var w: nat
    var err: Option<Error>

    ghost predicate Valid()
      reads this
    {
      && r <= w <= buf.Length
      && buf.Length >= MIN_READ_BUFFER_SIZE
      && err != Some(BufferFull)
    }

    /** The stream ahead of the reader: what it holds, then what the source will deliver. */
    ghost function Ahead(): (f: Flow)
      requires Valid()
      reads this, buf, rd
      ensures f.err != BufferFull
    {
      AheadOf(buf[r..w], err, rd.chunks)
    }

    /** NewReaderSize, on a source that is not itself a Reader. */
    constructor (rd: ByteSource, size: int)
      ensures Valid() && this.rd == rd && fresh(buf)
      ensures buf.Length == if size < 16 then 16 else size
      ensures Ahead() == FlowOf(rd.chunks, 0)
    {
      this.rd := rd;
      buf := new byte[if size < MIN_READ_BUFFER_SIZE then MIN_READ_BUFFER_SIZE else size];
      r, w, err := 0, 0, None;
      new;
      assert buf[0..0] == [];
      var f := FlowOf(rd.chunks, 0);
      assert [] + f.data == f.data;
    }

    function Buffered(): int
      reads this
    {
      w - r
    }

    /** The first half of fill: slide the window to the front. */
    method Slide()
      requires Valid()
      modifies this`r, this`w, buf
      ensures r == 0 && w == old(w - r) && buf[..w] == old(buf[r..w])
    {
      if r > 0 {
        forall i | 0 <= i < w - r {
          buf[i] := buf[r + i];
        }
        w := w - r;
        r := 0;
      }
    }

    /** fill: slide the window to the front, then read until there is a byte or an error. */
    method Fill()
      requires Valid() && err.None? && w - r < buf.Length
      modifies this, buf, rd
      ensures Valid() && r == 0 && Ahead() == old(Ahead())
      ensures w >= old(w - r) && (err.Some? || w > old(w - r))
    {
      hide FlowOf, After, AheadOf, Prepend;
      ghost var held, all := buf[r..w], Ahead();
      NothingYet(held, rd.chunks);
      Slide();
      var i := MAX_CONSECUTIVE_EMPTY_READS;
      ghost var idle := 0;
      while i > 0
        invariant 0 <= i <= MAX_CONSECUTIVE_EMPTY_READS
        invariant r == 0 && w == |held| < buf.Length && err.None?
        invariant buf[..w] == held
        invariant idle + i == MAX_CONSECUTIVE_EMPTY_READS && Prepend(held, FlowOf(rd.chunks, idle)) == all
      {
        var n := ReadOnce(held, idle);
        if err.Some? || n > 0 {
          return;
        }
        idle := idle + 1;
        i := i - 1;
      }
      err := Some(NoProgress);
      TooManyEmptyReads(held, rd.chunks);
      assert buf[r..w] == buf[..w];
    }

    /** One read of fill, behind what is held. */
    method ReadOnce(ghost held: bytes, ghost idle: nat) returns (n: nat)
      requires Valid() && err.None? && r == 0 && w < buf.Length && idle < MAX_CONSECUTIVE_EMPTY_READS
      requires buf[..w] == held
      modifies this`w, this`err, buf, rd
      ensures Valid() && w == old(w) + n
      ensures err.Some? || n > 0 ==> Ahead() == Prepend(held, FlowOf(old(rd.chunks), idle))
      ensures err.None? && n == 0 ==> buf[..w] == held && FlowOf(rd.chunks, idle + 1) == FlowOf(old(rd.chunks), idle)
    {
      hide FlowOf, After, AheadOf, Prepend;
      ghost var before := rd.chunks;
      var e;
      n, e := rd.Read(buf, w);
      assert buf[..w + n] == buf[..w] + buf[w..w + n];
      FillStep(held, before, idle, n, buf[w..w + n], e);
      w := w + n;
      assert buf[r..w] == buf[..w];
      if e.Some? {
        err := Some(Source(e.value));
      }
    }

    method ReadErr() returns (e: Option<Error>)
      modifies this`err
      ensures e == old(err) && err == None
    {
      e := err;
      err := None;
    }

    /** The whole buffer has just been returned as this line. */
    ghost predicate FilledBy(line: bytes)
      reads this, buf
    {
      err.None? && r == w == |line| == buf.Length && w > 0 && line[w - 1] == buf[w - 1]
    }

    method ReadSlice(delim: byte) returns (line: bytes, e: Option<Error>)
      requires Valid()
      modifies this, buf, rd
      ensures Valid() && SliceRead(buf.Length, delim, old(Ahead()), line, e, Ahead())
      ensures e == Some(BufferFull) ==> FilledBy(line)
    {
      hide FilledBy, AheadOf, SliceRead, IndexByte, FlowOf, Took, TookAll, Prepend;
      ghost var before := Ahead();
      while true
        invariant Valid() && Ahead() == before
        decreases buf.Length - (w - r) + (if err.None? then 1 else 0)
      {
        var held := buf[r..w];
        SliceDecides(buf.Length, delim, held, err, rd.chunks);
        var i := IndexByte(held, delim);
        if i >= 0 {
          line := held[..i + 1];
          r := r + i + 1;
          assert buf[r..w] == held[i + 1..];
          return line, None;
        }
        if err.Some? {
          line := TakeWindow();
          e := ReadErr();
          return;
        }
        if Buffered() >= buf.Length {
          line := TakeWindow();
          return line, Some(BufferFull);
        }
        Fill();
      }
    }

    /** All that is held is returned; the slice shares the buffer. */
    method TakeWindow() returns (line: bytes)
      requires Valid()
      modifies this`r
      ensures Valid() && r == w && line == old(buf[r..w]) && buf[r..w] == []
      ensures err.None? && |line| == buf.Length ==> FilledBy(line)
    {
      line := buf[r..w];
      if |line| == buf.Length {
        LastOfWindow(buf, r, w);
      }
      r := w;
    }

    /** ReadLine. */
    method ReadLine() returns (line: bytes, isPrefix: bool, e: Option<Error>)
      requires Valid()
      modifies this, buf, rd
      ensures Valid() && LineRead(buf.Length, old(Ahead()), line, isPrefix, e, Ahead())
    {
      hide AheadOf, SliceRead, LineRead;
      ghost var before := Ahead();
      line, e := ReadSlice(LF);
      ghost var slice, after := line, Ahead();
      if e == Some(BufferFull) {
        LineCut(buf.Length, before, slice, after);
        if |line| > 0 && line[|line| - 1] == CR {
          // The source panics here if r is 0; the window has just reached the end of the buffer.
          assert r > 0;
          LastByte(buf, w);
          r := r - 1;
          assert buf[r..w] == [CR];
          PutBack([CR], rd.chunks);
          line := line[..|line| - 1];
        }
        return line, true, None;
      }
      LineEnds(buf.Length, before, slice, e, after);
      isPrefix := false;
      if |line| == 0 {
        return;
      }
      e := None;
      if line[|line| - 1] == LF {
        var drop := if |line| > 1 && line[|line| - 2] == CR then 2 else 1;
        line := line[..|line| - drop];
      }
    }

    /** Read's short cut for a large p while nothing is held: straight from the source. */
    method ReadDirect(p: array<byte>, lo: nat) returns (n: nat, e: Option<Error>)
      requires Valid() && p != buf && lo < p.Length
      requires r == w && err.None? && p.Length - lo >= buf.Length
      modifies this, rd, p
      ensures Valid() && lo + n <= p.Length && p[..lo] == old(p[..lo])
      ensures SomeRead(buf.Length, p.Length - lo, old(Ahead()), p[lo..lo + n], e, Ahead())
      ensures p[lo..lo + n] + AllOf(Ahead()) == old(AllOf(Ahead()))
      ensures n > 0 || e.Some? || |rd.chunks| < old(|rd.chunks|)
    {
      hide AheadOf, FlowOf, SomeRead, Took, TookAll, AllOf;
      assert buf[r..w] == [];
      ghost var chunks := rd.chunks;
      var got;
      n, got := rd.Read(p, lo);
      err := if got.Some? then Some(Source(got.value)) else None;
      assert buf[r..w] == [];
      DirectRead(buf.Length, p.Length - lo, chunks, n, p[lo..lo + n], got);
      e := ReadErr();
    }

    /** Read into the part of p from lo on. */
    method Read(p: array<byte>, lo: nat) returns (n: nat, e: Option<Error>)
      requires Valid() && p != buf && lo <= p.Length
      modifies this, buf, rd, p
      ensures Valid() && lo + n <= p.Length && p[..lo] == old(p[..lo])
      ensures lo == p.Length ==> n == 0 && e == old(err) && err == None && buf[r..w] == old(buf[r..w]) && rd.chunks == old(rd.chunks)
      ensures lo < p.Length ==> SomeRead(buf.Length, p.Length - lo, old(Ahead()), p[lo..lo + n], e, Ahead())
      ensures p[lo..lo + n] + AllOf(Ahead()) == old(AllOf(Ahead()))
      ensures lo < p.Length ==> n > 0 || e.Some? || |rd.chunks| < old(|rd.chunks|)
    {
      hide AheadOf, FlowOf, SomeRead, Took, TookAll, AllOf;
      ghost var before := Ahead();
      assert p[lo..lo] == [];
      if p.Length == lo {
        AheadIsHeldAndUnread(buf[r..w], err, rd.chunks);
        e := ReadErr();
        AheadIsHeldAndUnread(buf[r..w], err, rd.chunks);
        assert [] + AllOf(Ahead()) == AllOf(Ahead());
        return 0, e;
      }
      if r == w {
        assert buf[r..w] == [];
        if err.Some? {
          NothingRead(buf.Length, p.Length - lo, err.value, rd.chunks);
          e := ReadErr();
          return 0, e;
        }
        if p.Length - lo >= buf.Length {
          n, e := ReadDirect(p, lo);
          return;
        }
        Fill();
        if w == r {
          assert buf[r..w] == [];
          assert p[lo..lo] == [];
          NothingRead(buf.Length, p.Length - lo, err.value, rd.chunks);
          e := ReadErr();
          return 0, e;
        }
      }
      n := Deliver(p, lo);
      e := None;
    }

    /** The end of Read: what is held goes to p as far as it fits. */
    method Deliver(p: array<byte>, lo: nat) returns (n: nat)
      requires Valid() && p != buf && lo < p.Length && r < w
      modifies this`r, p
      ensures Valid() && 0 < n <= p.Length - lo && p[..lo] == old(p[..lo])
      ensures SomeRead(buf.Length, p.Length - lo, old(Ahead()), p[lo..lo + n], None, Ahead())
      ensures p[lo..lo + n] + AllOf(Ahead()) == old(AllOf(Ahead()))
    {
      hide AheadOf, FlowOf, SomeRead, Took, TookAll, AllOf;
      n := Min(p.Length - lo, w - r);
      var held := buf[r..w];
      Copy(p, lo, held[..n]);
      assert buf[r..w] == held;
      HeldRead(buf.Length, p.Length - lo, n, held, err, rd.chunks);
      WindowRest(buf, r, w, n);
      r := r + n;
    }

    /** ReadN; None when a negative count makes the slice run out of range. */
    method ReadN(n: int) returns (read: Option<(bytes, Option<Error>)>)
      requires Valid()
      modifies this, buf, rd
      ensures Valid()
      ensures n < 0 ==> read == None && Ahead() == old(Ahead())
      ensures n >= 0 ==> read.Some? && ExactlyRead(buf.Length, n, old(Ahead()), read.value.0, read.value.1, Ahead())
    {
      hide AheadOf, ExactlyRead;
      ghost var before := Ahead();
      while Buffered() < n
        invariant Valid() && Ahead() == before
        decreases buf.Length - (w - r) + (if err.None? then 1 else 0)
      {
        ghost var held := buf[r..w];
        CountDecides(buf.Length, n, held, err, rd.chunks);
        if err.Some? {
          var line := buf[r..w];
          r := w;
          var e := ReadErr();
          assert buf[r..w] == [];
          return Some((line, e));
        }
        if Buffered() >= buf.Length {
          assert buf[..] == held;
          r := w;
          assert buf[r..w] == [];
          return Some((buf[..], Some(BufferFull)));
        }
        Fill();
      }
      if n < 0 {
        return None;
      }
      ghost var held := buf[r..w];
      CountDecides(buf.Length, n, held, err, rd.chunks);
      WindowRest(buf, r, w, n);
      var line := buf[r..r + n];
      r := r + n;
      return Some((line, None));
    }

    /** ReadBytes: slices are collected while the buffer is full. */
    method ReadBytes(delim: byte) returns (line: bytes, e: Option<Error>)
      requires Valid()
      modifies this, buf, rd
      ensures Valid() && BytesRead(delim, old(Ahead()), line, e, Ahead())
    {
      hide FilledBy, AheadOf, SliceRead, BytesRead, IndexByte, FlowOf, Took, TookAll, Prepend;
      ghost var before := Ahead();
      ghost var taken := 0;
      var full: seq<bytes> := [];
      var frag: bytes;
      assert before.data[0..] == before.data;
      while true
        invariant Valid() && taken <= |before.data|
        invariant Joined(full) == before.data[..taken]
        invariant Ahead() == before.(data := before.data[taken..])
        invariant delim !in before.data[..taken]
        decreases |before.data| - taken
      {
        ghost var now := Ahead();
        frag, e := ReadSlice(delim);
        SliceTurn(buf.Length, delim, before, taken, now, frag, e, Ahead());
        if e.None? {
          break;
        }
        if e != Some(BufferFull) {
          break;
        }
        JoinedSnoc(full, frag);
        full := full + [frag];
        taken := taken + buf.Length;
      }
      line := Concatenated(full, frag);
    }
  }

  /** The end of ReadBytes: one buffer for the pieces and the fragment. */
  method Concatenated(full: seq<bytes>, frag: bytes) returns (line: bytes)
    ensures line == Joined(full) + frag
  {
    line := [];
    for i := 0 to |full|
      invariant line == Joined(full[..i])
    {
      JoinedSnoc(full[..i], full[i]);
      assert full[..i + 1] == full[..i] + [full[i]];
      line := line + full[i];
    }
    assert full[..|full|] == full;
    line := line + frag;
  }

  function Joined(parts: seq<bytes>): bytes
  {
    if parts == [] then [] else parts[0] + Joined(parts[1..])
  }

  lemma {:induction false} JoinedSnoc(parts: seq<bytes>, last: bytes)
    ensures Joined(parts + [last]) == Joined(parts) + last
  {
    if parts == [] {
      assert (parts + [last])[1..] == [];
    } else {
      assert (parts + [last])[1..] == parts[1..] + [last];
      JoinedSnoc(parts[1..], last);
      assert parts[0] + (Joined(parts[1..]) + last) == parts[0] + Joined(parts[1..]) + last;
    }
  }

  lemma IndexBeyond(data: bytes, taken: nat, c: byte)
    requires taken <= |data| && c !in data[..taken]
    ensures IndexByte(data, c) == if IndexByte(data[taken..], c) < 0 then -1 else taken + IndexByte(data[taken..], c)
  {
    NotIn(data[..taken], c);
    IndexByteOfConcat(data[..taken], data[taken..], c);
    assert data == data[..taken] + data[taken..];
  }

  lemma NotIn(data: bytes, c: byte)
    requires c !in data
    ensures IndexByte(data, c) == -1
  {
  }

  /** One slice of ReadBytes: either the line is complete, or a full buffer more has been taken. */
  lemma SliceTurn(size: nat, delim: byte, before: Flow, taken: nat, now: Flow, frag: bytes, e: Option<Error>, after: Flow)
    requires taken <= |before.data| && now == before.(data := before.data[taken..])
    requires delim !in before.data[..taken] && before.err != BufferFull && size > 0
    requires SliceRead(size, delim, now, frag, e, after)
    ensures e != Some(BufferFull) ==> BytesRead(delim, before, before.data[..taken] + frag, e, after)
    ensures e == Some(BufferFull) ==>
              && taken + size <= |before.data| && before.data[..taken + size] == before.data[..taken] + frag
              && after == before.(data := before.data[taken + size..])
              && delim !in before.data[..taken + size]
  {
    hide FlowOf, IndexByte, Took, TookAll;
    IndexBeyond(before.data, taken, delim);
    var i := IndexByte(now.data, delim);
    if 0 <= i < size {
      TookFurther(before, taken, i + 1, frag, after);
    } else if e == Some(BufferFull) {
      if TookAll(now, frag, e, after) {
        NotFull(now, frag, e, after);
      }
      TookFurther(before, taken, size, frag, after);
      TookIs(before, taken + size, before.data[..taken] + frag, after);
      NotBefore(now.data, size, delim);
      NotInBoth(before.data, taken, size, delim);
    } else {
      TookAllFurther(before, taken, frag, e, after);
    }
  }

  lemma NotFull(before: Flow, line: bytes, e: Option<Error>, after: Flow)
    requires TookAll(before, line, e, after) && before.err != BufferFull
    ensures e != Some(BufferFull)
  {
  }

  lemma TookIs(before: Flow, k: nat, line: bytes, after: Flow)
    requires Took(before, k, line, after)
    ensures k <= |before.data| && line == before.data[..k] && after == before.(data := before.data[k..])
  {
  }

  lemma TookFurther(before: Flow, taken: nat, k: nat, line: bytes, after: Flow)
    requires taken <= |before.data| && Took(before.(data := before.data[taken..]), k, line, after)
    ensures taken + k <= |before.data| && Took(before, taken + k, before.data[..taken] + line, after)
  {
    Further(before.data, taken, k);
  }

  lemma TookAllFurther(before: Flow, taken: nat, line: bytes, e: Option<Error>, after: Flow)
    requires taken <= |before.data| && TookAll(before.(data := before.data[taken..]), line, e, after)
    ensures TookAll(before, before.data[..taken] + line, e, after)
  {
    assert before.data[..taken] + before.data[taken..] == before.data;
  }

  lemma NotInBoth(data: bytes, taken: nat, k: nat, c: byte)
    requires taken + k <= |data| && c !in data[..taken] && c !in data[taken..][..k]
    ensures c !in data[..taken + k]
  {
    Further(data, taken, k);
  }

  lemma Further(data: bytes, taken: nat, k: nat)
    requires taken + k <= |data|
    ensures data[..taken] + data[taken..][..k] == data[..taken + k]
    ensures data[taken..][k..] == data[taken + k..]
  {
  }

  lemma NotBefore(data: bytes, k: nat, c: byte)
    requires k <= |data| && (IndexByte(data, c) < 0 || IndexByte(data, c) >= k)
    ensures c !in data[..k]
  {
    if IndexByte(data, c) >= k {
      assert data[..k] <= data[..IndexByte(data, c)];
    }
  }

  lemma LastByte(a: array<byte>, w: nat)
    requires 0 < w <= a.Length
    ensures a[w..w] == [] && a[w - 1..w] == [a[w - 1]]
  {
  }

  /** copy. */
  method Copy(p: array<byte>, lo: nat, src: bytes)
    requires lo + |src| <= p.Length
    modifies p
    ensures p[..lo] == old(p[..lo]) && p[lo..lo + |src|] == src
  {
    forall i | 0 <= i < |src| {
      p[lo + i] := src[i];
    }
  }

  lemma WindowRest(a: array<byte>, r: nat, w: nat, n: nat)
    requires r <= w <= a.Length && n <= w - r
    ensures a[r + n..w] == a[r..w][n..] && a[r..r + n] == a[r..w][..n]
  {
  }

  lemma LastOfWindow(a: array<byte>, r: nat, w: nat)
    requires r < w <= a.Length
    ensures a[r..w][w - r - 1] == a[w - 1]
  {
  }

  lemma NothingYet(held: bytes, chunks: seq<Chunk>)
    ensures AheadOf(held, None, chunks) == Prepend(held, FlowOf(chunks, 0))
  {
  }

  lemma TooManyEmptyReads(held: bytes, chunks: seq<Chunk>)
    ensures Prepend(held, FlowOf(chunks, MAX_CONSECUTIVE_EMPTY_READS)) == AheadOf(held, Some(NoProgress), chunks)
  {
    assert held + [] == held;
  }

  /** A full buffer without a newline: all of it, or all but a final carriage return, is a prefix. */
  lemma LineCut(size: nat, before: Flow, slice: bytes, after: Flow)
    requires size > 1 && |slice| == size && before.err != BufferFull
    requires SliceRead(size, LF, before, slice, Some(BufferFull), after)
    ensures slice[size - 1] != CR ==> LineRead(size, before, slice, true, None, after)
    ensures slice[size - 1] == CR ==>
              LineRead(size, before, slice[..size - 1], true, None, Prepend([CR], after))
  {
    hide FlowOf, IndexByte;
    assert slice[size - 1] == before.data[size - 1];
    if slice[size - 1] == CR {
      assert before.data[size - 1..] == [CR] + before.data[size..];
      assert slice[..size - 1] == before.data[..size - 1];
    }
  }

  lemma PutBack(held: bytes, chunks: seq<Chunk>)
    ensures AheadOf(held, None, chunks) == Prepend(held, AheadOf([], None, chunks))
  {
    var f := FlowOf(chunks, 0);
    assert [] + f.data == f.data;
  }

  /** What ReadLine makes of a slice that ends in a newline or comes with the stream's error. */
  lemma LineEnds(size: nat, before: Flow, slice: bytes, e: Option<Error>, after: Flow)
    requires size > 0 && e != Some(BufferFull) && SliceRead(size, LF, before, slice, e, after)
    ensures slice == [] ==> LineRead(size, before, [], false, e, after)
    ensures slice != [] && slice[|slice| - 1] != LF ==> LineRead(size, before, slice, false, None, after)
    ensures slice != [] && slice[|slice| - 1] == LF ==>
              var drop := if |slice| > 1 && slice[|slice| - 2] == CR then 2 else 1;
              LineRead(size, before, slice[..|slice| - drop], false, None, after)
  {
    hide FlowOf;
    var i := IndexByte(before.data, LF);
    if 0 <= i < size {
      assert slice[i] == LF;
      assert slice[..i] == before.data[..i];
      assert i > 0 ==> slice[i - 1] == before.data[..i][i - 1];
      if i > 0 && slice[i - 1] == CR {
        assert slice[..i - 1] == before.data[..i][..i - 1];
      }
    } else if slice != [] {
      assert slice[|slice| - 1] == before.data[|slice| - 1];
    }
  }

  lemma NothingRead(size: nat, room: nat, err: Error, chunks: seq<Chunk>)
    requires err != BufferFull
    ensures var before, after := AheadOf([], Some(err), chunks), AheadOf([], None, chunks);
            SomeRead(size, room, before, [], Some(err), after) && [] + AllOf(after) == AllOf(before)
  {
    TakeAll([], err, chunks);
    var before, after := AheadOf([], Some(err), chunks), AheadOf([], None, chunks);
    TakingConserves(before, 0, [], Some(err), after);
  }

  lemma HeldRead(size: nat, room: nat, n: nat, held: bytes, err: Option<Error>, chunks: seq<Chunk>)
    requires 0 < n <= room && n <= |held| && err != Some(BufferFull)
    ensures var before, after := AheadOf(held, err, chunks), AheadOf(held[n..], err, chunks);
            SomeRead(size, room, before, held[..n], None, after) && held[..n] + AllOf(after) == AllOf(before)
  {
    hide FlowOf;
    TakeHeld(held, n, err, chunks);
    var before, after := AheadOf(held, err, chunks), AheadOf(held[n..], err, chunks);
    TakingConserves(before, n, held[..n], None, after);
  }

  /** A read past the empty buffer. */
  lemma DirectRead(size: nat, room: nat, chunks: seq<Chunk>, n: nat, got: bytes, e: Option<SourceError>)
    requires size <= room && |got| == n <= room
    requires if chunks == [] then got == [] && e == Some(EOF)
             else n <= |chunks[0].data| && got == chunks[0].data[..n]
                  && e == (if n == |chunks[0].data| then chunks[0].err else None)
    requires n == 0 && chunks != [] ==> chunks[0].data == []
    ensures var before, after := AheadOf([], None, chunks), AheadOf([], None, After(chunks, n));
            var err := if e.Some? then Some(Source(e.value)) else None;
            SomeRead(size, room, before, got, err, after) && got + AllOf(after) == AllOf(before)
  {
    hide FlowOf;
    var before, after := AheadOf([], None, chunks), AheadOf([], None, After(chunks, n));
    FillStep([], chunks, 0, n, got, e);
    assert [] + got == got;
    if e.Some? {
      TakeAll(got, Source(e.value), After(chunks, n));
      TakingConserves(before, 0, got, Some(Source(e.value)), after);
    } else if n > 0 {
      TakeHeld(got, n, None, After(chunks, n));
      assert got[n..] == [] && got[..n] == got;
      TakingConserves(before, n, got, None, after);
    } else {
      AheadIsHeldAndUnread([], None, chunks);
      AheadIsHeldAndUnread([], None, chunks[1..]);
      PutBack([], chunks);
      var f, g := FlowOf(chunks, 0), FlowOf(chunks[1..], 0);
      assert [] + f.data == f.data && [] + g.data == g.data;
      if !Stuck(before) {
        EmptyReadsBefore(chunks[1..], 1, 0);
      }
      assert [] + Concat(chunks[1..]) == Concat(chunks[1..]);
    }
  }
}
