/**
 The redis protocol (redis.v2/parser.go) on the buffered reader.

 What the parsers return is specified on the plain bytes of a stream and the error that ends it; the
 methods meet this on every chunking of the stream. Lines must fit the reader's buffer, payloads need
 not.
 */
module Resp {
  import opened Base
  import opened BufioReader

  const STAR: byte := 42
  const PLUS: byte := 43
  const MINUS: byte := 45
  const DOLLAR: byte := 36
  const COLON: byte := 58
  const ONE: byte := 49

  datatype Failure = EndOfStream | TooSmall | NotANumber | Unexpected(line: bytes) | ErrorReply(message: bytes) | NilReply
                   | Trouble(e: BufioReader.Error)

  datatype Outcome<+T> = Good(value: T) | Failed(why: Failure) | Panicked

  /** What parseReply returns: text for status and bulk replies, and nil elements of lists. */
  datatype Value = Text(s: bytes) | Number(i: int) | Null | List(items: seq<Value>)

  /** A result, and the bytes left after it. */
  datatype Parse<+T> = Parse(out: Outcome<T>, rest: bytes)

  // ------------------------------------------------------------------ numbers

  /** strconv.AppendUint in base 10. */
  function Decimal(n: nat): (s: bytes)
    ensures s != []
  {
    if n < 10 then [Digit(n)] else Decimal(n / 10) + [Digit(n % 10)]
  }

  function Digit(n: nat): byte
    requires n < 10
  {
    48 + n
  }

  function ParseUint(s: bytes): Option<nat>
    decreases |s|
  {
    if s == [] || !(48 <= s[|s| - 1] <= 57) then None
    else if |s| == 1 then Some(s[0] - 48)
    else match ParseUint(s[..|s| - 1])
      case None => None
      case Some(v) => Some(10 * v + (s[|s| - 1] - 48))
  }

  function SomeInt(i: int): Option<int>
  {
    Some(i)
  }

  /** strconv.ParseInt in base 10; limit is two to the number of bits less one. */
  function ParseInt(s: bytes, limit: nat): Option<int>
  {
    if s == [] then None
    else if s[0] == MINUS then
      match ParseUint(s[1..])
      case None => None
      case Some(v) => if v <= limit then SomeInt(0 - v) else None
    else
      match ParseUint(if s[0] == PLUS then s[1..] else s)
      case None => None
      case Some(v) => if v < limit then Some(v) else None
  }

  const TWO31: nat := 0x8000_0000

  /** int64 addition. */
  function WrapInt64(i: int): (r: int)
    requires -TWO63 <= i < 2 * TWO63
    ensures -0x8000_0000_0000_0000 <= r < 0x8000_0000_0000_0000 && (r == i || r == i - 0x1_0000_0000_0000_0000)
  {
    if i >= TWO63 then i - TWO64 else i
  }

  lemma {:induction false} DecimalParses(n: nat)
    ensures ParseUint(Decimal(n)) == Some(n)
    ensures 48 <= Decimal(n)[0] <= 57
  {
    if n >= 10 {
      var s := Decimal(n / 10) + [Digit(n % 10)];
      DecimalParses(n / 10);
      assert s[..|s| - 1] == Decimal(n / 10);
    }
  }

  /** A number written is read back when it is in range. */
  lemma DecimalRoundTrip(n: nat, limit: nat)
    ensures ParseInt(Decimal(n), limit) == if n < limit then Some(n) else None
    ensures ParseInt([MINUS] + Decimal(n), limit) == if n <= limit then SomeInt(0 - n) else None
  {
    DecimalParses(n);
    assert ([MINUS] + Decimal(n))[1..] == Decimal(n);
  }

  // ------------------------------------------------------------------ reading, on plain bytes

  function SpecLine(data: bytes): (p: Parse<bytes>)
    ensures p.out.Good? ==> |p.rest| < |data|
    ensures |p.rest| <= |data|
  {
    var i := IndexByte(data, LF);
    if data == [] then Parse(Failed(EndOfStream), [])
    else if i >= 0 then Parse(Good(Chomp(data[..i])), data[i + 1..])
    else Parse(Good(data), [])
  }

  /** The next line fits a buffer of this size. */
  predicate LineFits(size: nat, data: bytes)
  {
    var i := IndexByte(data, LF);
    if i >= 0 then i < size else |data| < size
  }

  function SpecN(data: bytes, n: int): (p: Parse<bytes>)
    ensures |p.rest| <= |data|
    ensures p.out.Good? ==> |p.out.value| == n
  {
    if n < 0 then Parse(Panicked, data)
    else if n <= |data| then Parse(Good(data[..n]), data[n..])
    else Parse(Failed(EndOfStream), [])
  }

  /** The payload of a bulk, of which the terminator is dropped unread. */
  function SpecBulk(data: bytes, length: int): (p: Parse<bytes>)
    requires -TWO63 <= length < TWO63
    ensures |p.rest| <= |data|
  {
    var p := SpecN(data, WrapInt64(length + 2));
    if p.out.Good? then
      if length < 0 then Parse(Panicked, p.rest) else Parse(Good(p.out.value[..length]), p.rest)
    else p
  }

  predicate IsNull(line: bytes)
  {
    |line| == 3 && line[1] == MINUS && line[2] == ONE
  }

  function Fail<T, U>(p: Parse<T>): Parse<U>
    requires !p.out.Good?
  {
    Parse(if p.out.Failed? then Failed(p.out.why) else Panicked, p.rest)
  }

  function AsText(p: Parse<bytes>): Parse<Value>
  {
    if p.out.Good? then Parse(Good(Text(p.out.value)), p.rest) else Fail(p)
  }

  function AsList(p: Parse<seq<Value>>): Parse<Value>
  {
    if p.out.Good? then Parse(Good(List(p.out.value)), p.rest) else Fail(p)
  }

  /** What the first line of a reply decides: the whole result, or what to read next. */
  datatype Header = Done(out: Outcome<Value>) | Bulk(length: int) | Multi(n: int)

  function HeaderOf(line: bytes): (h: Header)
    ensures h.Bulk? ==> -TWO63 <= h.length < TWO63
  {
    if line == [] then Done(Panicked)
    else if line[0] == MINUS then Done(Failed(ErrorReply(line[1..])))
    else if line[0] == PLUS then Done(Good(Text(line[1..])))
    else if line[0] == COLON then
      match ParseInt(line[1..], TWO63)
      case None => Done(Failed(NotANumber))
      case Some(v) => Done(Good(Number(v)))
    else if line[0] == DOLLAR || line[0] == STAR then
      if IsNull(line) then Done(Failed(NilReply))
      else
        match ParseInt(line[1..], TWO63)
        case None => Done(Failed(NotANumber))
        case Some(n) => if line[0] == DOLLAR then Bulk(n) else Multi(n)
    else Done(Failed(Unexpected(line)))
  }

  /** parseReply with parseSlice for lists. */
  function SpecReply(data: bytes): (p: Parse<Value>)
    ensures |p.rest| <= |data|
    ensures p.out.Good? ==> |p.rest| < |data|
    ensures p.out == Failed(NilReply) ==> |p.rest| < |data|
    decreases |data|, 0, 0
  {
    var l := SpecLine(data);
    if l.out.Good? then SpecAfter(HeaderOf(l.out.value), l.rest) else Fail(l)
  }

  /** The rest of a reply after its first line. */
  function SpecAfter(h: Header, rest: bytes): (p: Parse<Value>)
    requires h.Bulk? ==> -TWO63 <= h.length < TWO63
    ensures |p.rest| <= |rest|
    decreases |rest|, 2, 0
  {
    match h
    case Done(out) => Parse(out, rest)
    case Bulk(length) => AsText(SpecBulk(rest, length))
    case Multi(n) => AsList(SpecSlice(rest, n))
  }

  /** parseSlice: a nil reply is an element, any other error ends the list. */
  function SpecSlice(data: bytes, n: int): (p: Parse<seq<Value>>)
    ensures |p.rest| <= |data|
    decreases |data|, 1, if n < 0 then 0 else n
  {
    if n < 0 then Parse(Panicked, data)
    else if n == 0 then Parse(Good([]), data)
    else
      var r := SpecReply(data);
      match r.out
      case Good(v) => Cons(v, SpecSlice(r.rest, n - 1))
      case Failed(why) => if why == NilReply then Cons(Null, SpecSlice(r.rest, n - 1)) else Fail(r)
      case Panicked => Fail(r)
  }

  function Cons<T>(v: T, p: Parse<seq<T>>): Parse<seq<T>>
  {
    if p.out.Good? then Parse(Good([v] + p.out.value), p.rest) else p
  }

  /** Every line a reply has fits a buffer of this size. */
  predicate ReplyFits(size: nat, data: bytes)
    decreases |data|, 0, 0
  {
    var l := SpecLine(data);
    && LineFits(size, data)
    && (l.out.Good? && HeaderOf(l.out.value).Multi? ==> SliceFits(size, l.rest, HeaderOf(l.out.value).n))
  }

  predicate SliceFits(size: nat, data: bytes, n: int)
    decreases |data|, 1, if n < 0 then 0 else n
  {
    n <= 0 ||
    (var r := SpecReply(data);
     && ReplyFits(size, data)
     && (r.out.Good? || r.out == Failed(NilReply) ==> SliceFits(size, r.rest, n - 1)))
  }

  /** One argument of a request. */
  function SpecArg(data: bytes): (p: Parse<bytes>)
    ensures |p.rest| <= |data|
    ensures p.out.Good? ==> |p.rest| < |data|
  {
    var l := SpecLine(data);
    if !l.out.Good? then l
    else if l.out.value == [] then Parse(Panicked, l.rest)
    else if l.out.value[0] != DOLLAR then Parse(Failed(Unexpected(l.out.value)), l.rest)
    else match ParseInt(l.out.value[1..], TWO31)
      case None => Parse(Failed(NotANumber), l.rest)
      case Some(length) => SpecBulk(l.rest, length)
  }

  function SpecArgs(data: bytes, n: nat): (p: Parse<seq<bytes>>)
    decreases n
  {
    if n == 0 then Parse(Good([]), data)
    else
      var a := SpecArg(data);
      if a.out.Good? then Cons(a.out.value, SpecArgs(a.rest, n - 1)) else Fail(a)
  }

  /** parseReq: a line that does not start an array is the only argument. */
  function SpecReq(data: bytes): Parse<seq<bytes>>
  {
    var l := SpecLine(data);
    if !l.out.Good? then Fail(l)
    else if l.out.value == [] then Parse(Panicked, l.rest)
    else if l.out.value[0] != STAR then Parse(Good([l.out.value]), l.rest)
    else match ParseInt(l.out.value[1..], TWO63)
      case None => Parse(Failed(NotANumber), l.rest)
      case Some(n) => if n < 0 then Parse(Panicked, l.rest) else SpecArgs(l.rest, n)
  }

  predicate ArgsFit(size: nat, data: bytes, n: nat)
    decreases n
  {
    n == 0 || (LineFits(size, data) && (SpecArg(data).out.Good? ==> ArgsFit(size, SpecArg(data).rest, n - 1)))
  }

  predicate ReqFits(size: nat, data: bytes)
  {
    var l := SpecLine(data);
    && LineFits(size, data)
    && (l.out.Good? && l.out.value != [] && l.out.value[0] == STAR
        && ParseInt(l.out.value[1..], TWO63).Some? && ParseInt(l.out.value[1..], TWO63).value >= 0
        ==> ArgsFit(size, l.rest, ParseInt(l.out.value[1..], TWO63).value))
  }

  // ------------------------------------------------------------------ reading, on the buffered reader

  /** The stream is these bytes, in whatever chunks, and then the same error for ever: EOF, or that of a broken
      connection. */
  predicate Steady(f: Flow)
  {
    f.err.Source? && FlowOf(f.rest, 0) == f.(data := [])
  }

  /** What is left of a stream is the end of it. */
  predicate SameEnd(before: Flow, after: Flow)
  {
    after == before.(data := after.data)
  }

  function FailureOf(e: BufioReader.Error): Failure
  {
    if e == Source(EOF) then EndOfStream else Trouble(e)
  }

  /** What a parser returns when the stream ends in this error: it is passed on where EOF would be. */
  function Ended<T>(out: Outcome<T>, e: BufioReader.Error): Outcome<T>
  {
    if out.Failed? && out.why == EndOfStream then Failed(FailureOf(e)) else out
  }

  /** The outcome and the stream after it are the specified ones; a line was too long only if one is. */
  ghost predicate Meets<T>(before: Flow, out: Outcome<T>, after: Flow, spec: Parse<T>, fits: bool)
  {
    Steady(before) ==>
      SameEnd(before, after)
      && if out == Failed(TooSmall) then !fits else out == Ended(spec.out, before.err) && after.data == spec.rest
  }

  /** Any bytes before EOF are such a stream, and so are they before an error that ends the source. */
  lemma SteadyStreams(data: bytes, e: SourceError)
    ensures Steady(Flow(data, Source(EOF), []))
    ensures Steady(Flow(data, Source(e), [Chunk([], Some(e))]))
    ensures FlowOf([Chunk(data, Some(e))], 0) == Flow(data, Source(e), [Chunk([], Some(e))])
  {
  }

  lemma LineMeets(size: nat, before: Flow, line: bytes, isPrefix: bool, e: Option<BufioReader.Error>, after: Flow)
    requires size > 1 && LineRead(size, before, line, isPrefix, e, after)
    ensures Meets(before,
                  if e.Some? then Failed(FailureOf(e.value)) else if isPrefix then Failed(TooSmall) else Good(line),
                  after, SpecLine(before.data), LineFits(size, before.data))
    ensures |AllOf(after)| <= |AllOf(before)|
    ensures e.None? && !isPrefix ==> |AllOf(after)| < |AllOf(before)|
  {
    var i := IndexByte(before.data, LF);
    if 0 <= i < size {
      assert |AllOf(after)| == |AllOf(before)| - (i + 1);
    } else if isPrefix {
      TakingConserves(before, |line|, line, None, after);
    } else {
      FlowKeepsAll(before.rest, 0);
      assert |AllOf(before)| == |before.data| + |AllOf(after)|;
    }
  }

  method ReadLine(rd: Reader) returns (out: Outcome<bytes>)
    requires rd.Valid()
    modifies rd, rd.buf, rd.rd
    ensures rd.Valid()
    ensures Meets(old(rd.Ahead()), out, rd.Ahead(), SpecLine(old(rd.Ahead()).data), LineFits(rd.buf.Length, old(rd.Ahead()).data))
    ensures |AllOf(rd.Ahead())| <= old(|AllOf(rd.Ahead())|)
    ensures out.Good? ==> |AllOf(rd.Ahead())| < old(|AllOf(rd.Ahead())|)
  {
    hide LineRead, Meets, AheadOf;
    ghost var before := rd.Ahead();
    var line, isPrefix, err := rd.ReadLine();
    LineMeets(rd.buf.Length, before, line, isPrefix, err, rd.Ahead());
    if err.Some? {
      return Failed(FailureOf(err.value));
    }
    if isPrefix {
      return Failed(TooSmall);
    }
    return Good(line);
  }

  /** What has been read of n bytes: got, with the rest of them still ahead. */
  ghost predicate SoFar(before: Flow, n: nat, got: bytes, now: Flow)
  {
    && |got| <= n && |got| + |AllOf(now)| == |AllOf(before)|
    && (Steady(before) ==> SameEnd(before, now) && before.data == got + now.data)
  }

  lemma SomeMore(size: nat, room: nat, before: Flow, n: nat, got: bytes, now: Flow,
                 more: bytes, e: Option<BufioReader.Error>, after: Flow)
    requires SoFar(before, n, got, now) && room == n - |got| > 0
    requires SomeRead(size, room, now, more, e, after) && more + AllOf(after) == AllOf(now)
    ensures SoFar(before, n, got + more, after)
    ensures Steady(before) && e.Some? && |got + more| < n ==> e == Some(before.err) && |before.data| < n && after.data == []
  {
    hide FlowOf;
    assert |more| + |AllOf(after)| == |AllOf(now)|;
    if Steady(before) {
      assert got + now.data == got + more + after.data;
    }
  }

  lemma FirstPart(size: nat, n: nat, before: Flow, got: bytes, e: Option<BufioReader.Error>, after: Flow)
    requires ExactlyRead(size, n, before, got, e, after)
    ensures |AllOf(after)| + |got| == |AllOf(before)|
    ensures e == Some(BufferFull) && before.err != BufferFull ==> SoFar(before, n, got, after) && |got| < n
    ensures e.None? ==> |got| == n && Meets(before, Good(got), after, SpecN(before.data, n), true)
    ensures e.Some? && e != Some(BufferFull) ==>
              Meets(before, Failed(FailureOf(e.value)), after, SpecN(before.data, n), true)
  {
    hide FlowOf;
    TakingConservesAny(before, got, e, after);
  }

  /** readN: past the buffer's size the rest is read straight into place. */
  method ReadN(rd: Reader, n: int) returns (out: Outcome<bytes>)
    requires rd.Valid()
    modifies rd, rd.buf, rd.rd
    ensures rd.Valid()
    ensures out != Failed(TooSmall)
    ensures Meets(old(rd.Ahead()), out, rd.Ahead(), SpecN(old(rd.Ahead()).data, n), true)
    ensures |AllOf(rd.Ahead())| <= old(|AllOf(rd.Ahead())|)
    ensures out.Good? ==> |out.value| == n
  {
    hide ExactlyRead, SomeRead, AheadOf, FlowOf;
    ghost var before := rd.Ahead();
    var read := rd.ReadN(n);
    if read.None? {
      return Panicked;
    }
    var (b, err) := read.value;
    FirstPart(rd.buf.Length, n, before, b, err, rd.Ahead());
    if err == Some(BufferFull) {
      var tmp := new byte[n];
      Copy(tmp, 0, b);
      var r := |b|;
      assert tmp[..r] == tmp[0..r];
      while true
        invariant rd.Valid() && fresh(tmp) && r < n == tmp.Length
        invariant SoFar(before, n, tmp[..r], rd.Ahead())
        decreases n - r, |rd.rd.chunks|
      {
        ghost var got, now := tmp[..r], rd.Ahead();
        var nn, e := rd.Read(tmp, r);
        SomeMore(rd.buf.Length, n - r, before, n, got, now, tmp[r..r + nn], e, rd.Ahead());
        assert tmp[..r + nn] == got + tmp[r..r + nn];
        r := r + nn;
        if r >= n {
          break;
        }
        if e.Some? {
          return Failed(FailureOf(e.value));
        }
      }
      assert tmp[..] == tmp[..r];
      return Good(tmp[..]);
    }
    if err.Some? {
      return Failed(FailureOf(err.value));
    }
    return Good(b);
  }

  // ------------------------------------------------------------------ replies

  method ReadBulk(rd: Reader, length: int) returns (out: Outcome<bytes>)
    requires rd.Valid() && -TWO63 <= length < TWO63
    modifies rd, rd.buf, rd.rd
    ensures rd.Valid()
    ensures out != Failed(TooSmall)
    ensures Meets(old(rd.Ahead()), out, rd.Ahead(), SpecBulk(old(rd.Ahead()).data, length), true)
    ensures |AllOf(rd.Ahead())| <= old(|AllOf(rd.Ahead())|)
  {
    hide AllOf;
    var b := ReadN(rd, WrapInt64(length + 2));
    if !b.Good? {
      return b;
    }
    if length < 0 {
      return Panicked;
    }
    return Good(b.value[..length]);
  }

  /** A first line that decides everything, or fails. */
  lemma LineDecides(size: nat, before: Flow, line: Outcome<bytes>, mid: Flow)
    requires Meets(before, line, mid, SpecLine(before.data), LineFits(size, before.data))
    ensures line.Failed? ==> Meets(before, Failed(line.why), mid, SpecReply(before.data), ReplyFits(size, before.data))
    ensures line.Panicked? ==> Meets(before, Panicked, mid, SpecReply(before.data), ReplyFits(size, before.data))
    ensures line.Good? && HeaderOf(line.value).Done? ==>
              Meets(before, HeaderOf(line.value).out, mid, SpecReply(before.data), ReplyFits(size, before.data))
  {
    hide HeaderOf, SpecLine, LineFits;
    DoneFits(line);
  }

  lemma DoneFits(line: Outcome<bytes>)
    ensures line.Good? && HeaderOf(line.value).Done? ==> HeaderOf(line.value).out != Failed(TooSmall)
    ensures line.Good? && HeaderOf(line.value).Done? ==> HeaderOf(line.value).out != Failed(EndOfStream)
  {
  }

  lemma BulkFollows(size: nat, before: Flow, line: bytes, mid: Flow, b: Outcome<bytes>, after: Flow)
    requires Meets(before, Good(line), mid, SpecLine(before.data), LineFits(size, before.data))
    requires HeaderOf(line).Bulk? && b != Failed(TooSmall)
    requires Meets(mid, b, after, SpecBulk(mid.data, HeaderOf(line).length), true)
    ensures Meets(before, AsText(Parse(b, [])).out, after, SpecReply(before.data), ReplyFits(size, before.data))
  {
    hide HeaderOf, SpecLine, LineFits, SpecBulk;
  }

  lemma ListFollows(size: nat, before: Flow, line: bytes, mid: Flow, items: Outcome<seq<Value>>, after: Flow)
    requires Meets(before, Good(line), mid, SpecLine(before.data), LineFits(size, before.data))
    requires HeaderOf(line).Multi?
    requires Meets(mid, items, after, SpecSlice(mid.data, HeaderOf(line).n), SliceFits(size, mid.data, HeaderOf(line).n))
    ensures Meets(before, AsList(Parse(items, [])).out, after, SpecReply(before.data), ReplyFits(size, before.data))
  {
    hide HeaderOf, SpecLine, LineFits, SpecSlice, SliceFits;
  }

  /** parseReply. */
  method ParseReply(rd: Reader) returns (out: Outcome<Value>)
    requires rd.Valid()
    modifies rd, rd.buf, rd.rd
    ensures rd.Valid()
    ensures Meets(old(rd.Ahead()), out, rd.Ahead(),
                  SpecReply(old(rd.Ahead()).data), ReplyFits(rd.buf.Length, old(rd.Ahead()).data))
    ensures |AllOf(rd.Ahead())| <= old(|AllOf(rd.Ahead())|)
    decreases |AllOf(rd.Ahead())|, 0
  {
    hide Meets, AllOf, SpecReply, ReplyFits, SpecLine, LineFits, HeaderOf, SpecBulk, SpecSlice, SliceFits;
    ghost var size, before := rd.buf.Length, rd.Ahead();
    var line := ReadLine(rd);
    ghost var mid := rd.Ahead();
    LineDecides(size, before, line, mid);
    if !line.Good? {
      return if line.Failed? then Failed(line.why) else Panicked;
    }
    match HeaderOf(line.value) {
      case Done(done) =>
        return done;
      case Bulk(length) =>
        var b := ReadBulk(rd, length);
        BulkFollows(size, before, line.value, mid, b, rd.Ahead());
        return AsText(Parse(b, [])).out;
      case Multi(n) =>
        var items := ParseSlice(rd, n);
        ListFollows(size, before, line.value, mid, items, rd.Ahead());
        return AsList(Parse(items, [])).out;
    }
  }

  function Behind(vals: seq<Value>, p: Parse<seq<Value>>): Parse<seq<Value>>
  {
    if p.out.Good? then Parse(Good(vals + p.out.value), p.rest) else p
  }

  /** Where the list's loop is: these values, and the rest of the list still ahead. */
  ghost predicate Reading(size: nat, n: int, before: Flow, vals: seq<Value>, left: int, now: Flow)
  {
    Steady(before) ==>
      && SameEnd(before, now)
      && SpecSlice(before.data, n) == Behind(vals, SpecSlice(now.data, left))
      && (SliceFits(size, before.data, n) ==> SliceFits(size, now.data, left))
  }

  lemma ReadingStarts(size: nat, n: int, before: Flow)
    ensures Reading(size, n, before, [], n, before)
  {
    var p := SpecSlice(before.data, n);
    assert p.out.Good? ==> [] + p.out.value == p.out.value;
  }

  lemma ReadingEnds(size: nat, n: int, before: Flow, vals: seq<Value>, now: Flow)
    requires Reading(size, n, before, vals, 0, now)
    ensures Meets(before, Good(vals), now, SpecSlice(before.data, n), SliceFits(size, before.data, n))
  {
    assert vals + [] == vals;
  }

  /** One element of the list. */
  lemma ReadingGoesOn(size: nat, n: int, before: Flow, vals: seq<Value>, left: nat, now: Flow, v: Outcome<Value>, after: Flow)
    requires left > 0 && Reading(size, n, before, vals, left, now)
    requires Meets(now, v, after, SpecReply(now.data), ReplyFits(size, now.data))
    ensures v.Good? ==> Reading(size, n, before, vals + [v.value], left - 1, after)
    ensures v == Failed(NilReply) ==> Reading(size, n, before, vals + [Null], left - 1, after)
    ensures v.Failed? && v.why != NilReply ==>
              Meets(before, Failed(v.why), after, SpecSlice(before.data, n), SliceFits(size, before.data, n))
    ensures v.Panicked? ==>
              Meets(before, Panicked, after, SpecSlice(before.data, n), SliceFits(size, before.data, n))
  {
    hide SpecReply, ReplyFits;
    if v.Good? || v == Failed(NilReply) {
      var x := if v.Good? then v.value else Null;
      var p := SpecSlice(after.data, left - 1);
      assert p.out.Good? ==> vals + ([x] + p.out.value) == vals + [x] + p.out.value;
    }
  }

  /** parseSlice. */
  method ParseSlice(rd: Reader, n: int) returns (out: Outcome<seq<Value>>)
    requires rd.Valid()
    modifies rd, rd.buf, rd.rd
    ensures rd.Valid()
    ensures Meets(old(rd.Ahead()), out, rd.Ahead(),
                  SpecSlice(old(rd.Ahead()).data, n), SliceFits(rd.buf.Length, old(rd.Ahead()).data, n))
    ensures |AllOf(rd.Ahead())| <= old(|AllOf(rd.Ahead())|)
    decreases |AllOf(rd.Ahead())|, 1
  {
    if n < 0 {
      return Panicked;
    }
    hide Meets, Reading, AllOf, SpecReply, ReplyFits, SpecSlice, SliceFits;
    ghost var size, before := rd.buf.Length, rd.Ahead();
    ReadingStarts(size, n, before);
    var vals: seq<Value> := [];
    for i := 0 to n
      invariant rd.Valid()
      invariant Reading(size, n, before, vals, n - i, rd.Ahead())
      invariant |AllOf(rd.Ahead())| <= |AllOf(before)|
    {
      ghost var now := rd.Ahead();
      var v := ParseReply(rd);
      ReadingGoesOn(size, n, before, vals, n - i, now, v, rd.Ahead());
      if v == Failed(NilReply) {
        vals := vals + [Null];
      } else if v.Failed? {
        return Failed(v.why);
      } else if v.Panicked? {
        return Panicked;
      } else {
        vals := vals + [v.value];
      }
    }
    ReadingEnds(size, n, before, vals, rd.Ahead());
    return Good(vals);
  }

  // ------------------------------------------------------------------ requests

  lemma RequestLine(size: nat, before: Flow, line: Outcome<bytes>, mid: Flow)
    requires Meets(before, line, mid, SpecLine(before.data), LineFits(size, before.data))
    ensures line.Failed? ==> Meets(before, Failed(line.why), mid, SpecReq(before.data), ReqFits(size, before.data))
    ensures line.Panicked? ==> Meets(before, Panicked, mid, SpecReq(before.data), ReqFits(size, before.data))
    ensures line.Good? && line.value == [] ==>
              Meets(before, Panicked, mid, SpecReq(before.data), ReqFits(size, before.data))
    ensures line.Good? && line.value != [] && line.value[0] != STAR ==>
              Meets(before, Good([line.value]), mid, SpecReq(before.data), ReqFits(size, before.data))
    ensures line.Good? && line.value != [] && line.value[0] == STAR && ParseInt(line.value[1..], TWO63).None? ==>
              Meets(before, Failed(NotANumber), mid, SpecReq(before.data), ReqFits(size, before.data))
    ensures line.Good? && line.value != [] && line.value[0] == STAR && ParseInt(line.value[1..], TWO63).Some?
              && ParseInt(line.value[1..], TWO63).value < 0 ==>
              Meets(before, Panicked, mid, SpecReq(before.data), ReqFits(size, before.data))
  {
    hide SpecLine, LineFits, ParseInt, ArgsFit, SpecArgs;
  }

  lemma RequestArgs(size: nat, before: Flow, line: bytes, mid: Flow, n: nat, args: Outcome<seq<bytes>>, after: Flow)
    requires Meets(before, Good(line), mid, SpecLine(before.data), LineFits(size, before.data))
    requires line != [] && line[0] == STAR && ParseInt(line[1..], TWO63) == Some(n as int)
    requires Meets(mid, args, after, SpecArgs(mid.data, n), ArgsFit(size, mid.data, n))
    ensures Meets(before, args, after, SpecReq(before.data), ReqFits(size, before.data))
  {
    hide SpecLine, LineFits, ParseInt, ArgsFit, SpecArgs;
  }

  function BehindArgs(args: seq<bytes>, p: Parse<seq<bytes>>): Parse<seq<bytes>>
  {
    if p.out.Good? then Parse(Good(args + p.out.value), p.rest) else p
  }

  ghost predicate ReadingArgs(size: nat, n: nat, before: Flow, args: seq<bytes>, left: nat, now: Flow)
  {
    Steady(before) ==>
      && SameEnd(before, now)
      && SpecArgs(before.data, n) == BehindArgs(args, SpecArgs(now.data, left))
      && (ArgsFit(size, before.data, n) ==> ArgsFit(size, now.data, left))
  }

  lemma ReadingArgsStarts(size: nat, n: nat, before: Flow)
    ensures ReadingArgs(size, n, before, [], n, before)
  {
    var p := SpecArgs(before.data, n);
    assert p.out.Good? ==> [] + p.out.value == p.out.value;
  }

  lemma ReadingArgsEnds(size: nat, n: nat, before: Flow, args: seq<bytes>, now: Flow)
    requires ReadingArgs(size, n, before, args, 0, now)
    ensures Meets(before, Good(args), now, SpecArgs(before.data, n), ArgsFit(size, before.data, n))
  {
    assert args + [] == args;
  }

  /** The length line of an argument, which may end the request, and then its payload. */
  lemma ReadingArgLine(size: nat, n: nat, before: Flow, args: seq<bytes>, left: nat, now: Flow, line: Outcome<bytes>, mid: Flow)
    requires left > 0 && ReadingArgs(size, n, before, args, left, now)
    requires Meets(now, line, mid, SpecLine(now.data), LineFits(size, now.data))
    ensures line.Failed? ==> Meets(before, Failed(line.why), mid, SpecArgs(before.data, n), ArgsFit(size, before.data, n))
    ensures line.Panicked? || line == Good([]) ==>
              Meets(before, Panicked, mid, SpecArgs(before.data, n), ArgsFit(size, before.data, n))
    ensures line.Good? && line.value != [] && line.value[0] != DOLLAR ==>
              Meets(before, Failed(Unexpected(line.value)), mid, SpecArgs(before.data, n), ArgsFit(size, before.data, n))
    ensures line.Good? && line.value != [] && line.value[0] == DOLLAR && ParseInt(line.value[1..], TWO31).None? ==>
              Meets(before, Failed(NotANumber), mid, SpecArgs(before.data, n), ArgsFit(size, before.data, n))
  {
    hide SpecLine, LineFits, ParseInt, SpecBulk;
  }

  lemma ReadingArg(size: nat, n: nat, before: Flow, args: seq<bytes>, left: nat, now: Flow, line: bytes, mid: Flow,
                   b: Outcome<bytes>, after: Flow)
    requires left > 0 && ReadingArgs(size, n, before, args, left, now)
    requires Meets(now, Good(line), mid, SpecLine(now.data), LineFits(size, now.data))
    requires line != [] && line[0] == DOLLAR && ParseInt(line[1..], TWO31).Some? && b != Failed(TooSmall)
    requires -TWO63 <= ParseInt(line[1..], TWO31).value < TWO63
    requires Meets(mid, b, after, SpecBulk(mid.data, ParseInt(line[1..], TWO31).value), true)
    ensures b.Failed? ==> Meets(before, Failed(b.why), after, SpecArgs(before.data, n), ArgsFit(size, before.data, n))
    ensures b.Panicked? ==> Meets(before, Panicked, after, SpecArgs(before.data, n), ArgsFit(size, before.data, n))
    ensures b.Good? ==> ReadingArgs(size, n, before, args + [b.value], left - 1, after)
  {
    hide SpecLine, LineFits, ParseInt, SpecBulk;
    if b.Good? {
      var p := SpecArgs(after.data, left - 1);
      assert p.out.Good? ==> args + ([b.value] + p.out.value) == args + [b.value] + p.out.value;
    }
  }

  /** parseReq. */
  method ParseReq(rd: Reader) returns (out: Outcome<seq<bytes>>)
    requires rd.Valid()
    modifies rd, rd.buf, rd.rd
    ensures rd.Valid()
    ensures Meets(old(rd.Ahead()), out, rd.Ahead(),
                  SpecReq(old(rd.Ahead()).data), ReqFits(rd.buf.Length, old(rd.Ahead()).data))
  {
    hide Meets, ReadingArgs, SpecLine, LineFits, SpecReq, ReqFits, SpecArgs, ArgsFit, SpecBulk, ParseInt;
    ghost var size, first := rd.buf.Length, rd.Ahead();
    var line := ReadLine(rd);
    ghost var start := rd.Ahead();
    RequestLine(size, first, line, start);
    if !line.Good? {
      return if line.Failed? then Failed(line.why) else Panicked;
    }
    if line.value == [] {
      return Panicked;
    }
    if line.value[0] != STAR {
      return Good([line.value]);
    }
    var numReplies := ParseInt(line.value[1..], TWO63);
    if numReplies.None? {
      return Failed(NotANumber);
    }
    if numReplies.value < 0 {
      return Panicked;
    }
    ghost var header := line.value;
    var n := numReplies.value;
    ReadingArgsStarts(size, n, start);
    var args: seq<bytes> := [];
    for i := 0 to n
      invariant rd.Valid()
      invariant ReadingArgs(size, n, start, args, n - i, rd.Ahead())
    {
      ghost var now := rd.Ahead();
      line := ReadLine(rd);
      ghost var mid := rd.Ahead();
      ReadingArgLine(size, n, start, args, n - i, now, line, mid);
      if !line.Good? {
        out := if line.Failed? then Failed(line.why) else Panicked;
        RequestArgs(size, first, header, start, n, out, rd.Ahead());
        return;
      }
      if line.value == [] {
        RequestArgs(size, first, header, start, n, Panicked, rd.Ahead());
        return Panicked;
      }
      if line.value[0] != DOLLAR {
        out := Failed(Unexpected(line.value));
        RequestArgs(size, first, header, start, n, out, rd.Ahead());
        return;
      }
      var argLen := ParseInt(line.value[1..], TWO31);
      if argLen.None? {
        RequestArgs(size, first, header, start, n, Failed(NotANumber), rd.Ahead());
        return Failed(NotANumber);
      }
      InRange(line.value[1..], TWO31);
      var arg := ReadBulk(rd, argLen.value);
      ReadingArg(size, n, start, args, n - i, now, line.value, mid, arg, rd.Ahead());
      if !arg.Good? {
        out := if arg.Failed? then Failed(arg.why) else Panicked;
        RequestArgs(size, first, header, start, n, out, rd.Ahead());
        return;
      }
      args := args + [arg.value];
    }
    ReadingArgsEnds(size, n, start, args, rd.Ahead());
    RequestArgs(size, first, header, start, n, Good(args), rd.Ahead());
    return Good(args);
  }

  lemma InRange(s: bytes, limit: nat)
    requires ParseInt(s, limit).Some? && limit <= TWO63
    ensures -TWO63 <= ParseInt(s, limit).value < TWO63
  {
  }
}
