/**
 What is written in the redis protocol is read back: requests as appendArgs writes them, and replies
 as a server writes them.
 */
module RespRoundTrip {
  import opened Base
  import opened BufioReader
  import opened Resp

  // ------------------------------------------------------------------ lines and payloads

  predicate OneLine(s: bytes)
  {
    LF !in s && (s == [] || s[|s| - 1] != CR)
  }

  lemma LineReads(size: nat, line: bytes, tail: bytes)
    requires OneLine(line) && line != []
    ensures SpecLine(line + CRLF + tail) == Parse(Good(line), tail)
    ensures LineFits(size, line + CRLF + tail) <==> |line| + 1 < size
  {
    var text := line + [CR];
    assert line + CRLF + tail == text + [LF] + tail;
    IndexByteUnique(text, LF, tail);
    assert (text + [LF] + tail)[..|text|] == text;
    assert (text + [LF] + tail)[|text| + 1..] == tail;
    assert Chomp(text) == line;
  }

  predicate Digits(s: bytes)
  {
    forall i :: 0 <= i < |s| ==> 48 <= s[i] <= 57
  }

  lemma {:induction false} DecimalIsDigits(n: nat)
    ensures Digits(Decimal(n))
  {
    if n >= 10 {
      DecimalIsDigits(n / 10);
    }
  }

  /** A line of a type byte and a number. */
  lemma NumberLine(c: byte, sign: bytes, n: nat)
    requires c != LF && (sign == [] || sign == [MINUS])
    ensures OneLine([c] + sign + Decimal(n))
  {
    DecimalIsDigits(n);
    var s, d := [c] + sign + Decimal(n), Decimal(n);
    assert s[|s| - 1] == d[|d| - 1];
    assert forall i :: 0 <= i < |d| ==> d[i] != LF;
  }

  lemma PayloadReads(s: bytes, tail: bytes)
    ensures SpecN(s + CRLF + tail, |s| + 2) == Parse(Good(s + CRLF), tail)
  {
    assert (s + CRLF + tail)[..|s| + 2] == s + CRLF;
    assert (s + CRLF + tail)[|s| + 2..] == tail;
  }

  /** A payload is taken with its terminator; a length that wraps around cannot be read. */
  lemma BulkReads(s: bytes, tail: bytes)
    requires |s| < TWO63 - 2
    ensures SpecBulk(s + CRLF + tail, |s|) == Parse(Good(s), tail)
  {
    PayloadReads(s, tail);
    assert (s + CRLF)[..|s|] == s;
  }

  // ------------------------------------------------------------------ requests

  function LengthLine(c: byte, n: nat): bytes
  {
    [c] + Decimal(n) + CRLF
  }

  function EncodeArg(a: bytes): bytes
  {
    LengthLine(DOLLAR, |a|) + a + CRLF
  }

  function EncodeEach(args: seq<bytes>): bytes
  {
    if args == [] then [] else EncodeArg(args[0]) + EncodeEach(args[1..])
  }

  function EncodeArgs(args: seq<bytes>): bytes
  {
    LengthLine(STAR, |args|) + EncodeEach(args)
  }

  /** In literal characters (the redis protocol): a star and the number of arguments, then for each of them a
      dollar, its length and its octets, all lines ended by a carriage return and a newline. */
  lemma RequestIs(args: seq<bytes>, arg: bytes, tail: seq<bytes>)
    ensures EncodeArgs(args) == Ascii("*") + Decimal(|args|) + Ascii("\r\n") + EncodeEach(args)
    ensures EncodeEach([arg] + tail) == Ascii("$") + Decimal(|arg|) + Ascii("\r\n") + arg + Ascii("\r\n") + EncodeEach(tail)
    ensures EncodeEach([]) == []
  {
    assert Ascii("*") == [STAR] && Ascii("$") == [DOLLAR] && Ascii("\r\n") == CRLF;
    assert ([arg] + tail)[1..] == tail;
  }

  /** Decimal digits, without leading zeros. */
  lemma DecimalIs(n: nat)
    ensures n < 10 ==> Decimal(n) == [("0123456789"[n]) as int]
    ensures n >= 10 ==> Decimal(n) == Decimal(n / 10) + [("0123456789"[n % 10]) as int]
    ensures n > 0 ==> Decimal(n)[0] != 48
  {
    if n >= 10 {
      DecimalIs(n / 10);
    }
  }

  lemma {:induction false} EncodeEachSnoc(args: seq<bytes>, a: bytes)
    ensures EncodeEach(args + [a]) == EncodeEach(args) + EncodeArg(a)
  {
    hide EncodeArg;
    if args == [] {
      assert (args + [a])[1..] == [];
    } else {
      assert (args + [a])[1..] == args[1..] + [a];
      EncodeEachSnoc(args[1..], a);
      assert EncodeArg(args[0]) + (EncodeEach(args[1..]) + EncodeArg(a))
          == EncodeArg(args[0]) + EncodeEach(args[1..]) + EncodeArg(a);
    }
  }

  /** appendArgs. */
  method AppendArgs(start: bytes, args: seq<bytes>) returns (buf: bytes)
    ensures buf == start + EncodeArgs(args)
  {
    buf := start;
    buf := buf + [STAR];
    buf := buf + Decimal(|args|);
    buf := buf + [CR, LF];
    ghost var header := buf;
    assert header == start + LengthLine(STAR, |args|);
    for i := 0 to |args|
      invariant buf == header + EncodeEach(args[..i])
    {
      var arg := args[i];
      EncodeEachSnoc(args[..i], arg);
      assert args[..i] + [arg] == args[..i + 1];
      ghost var before := buf;
      buf := buf + [DOLLAR];
      buf := buf + Decimal(|arg|);
      buf := buf + [CR, LF];
      buf := buf + arg;
      buf := buf + [CR, LF];
      Appended(before, arg, buf);
      assert before + EncodeArg(arg) == header + (EncodeEach(args[..i]) + EncodeArg(arg));
    }
    assert args[..|args|] == args;
    assert header + EncodeEach(args) == start + (LengthLine(STAR, |args|) + EncodeEach(args));
  }

  lemma Appended(before: bytes, arg: bytes, after: bytes)
    requires after == before + [DOLLAR] + Decimal(|arg|) + [CR, LF] + arg + [CR, LF]
    ensures after == before + EncodeArg(arg)
  {
    hide Decimal;
    Regroup(before, [DOLLAR], Decimal(|arg|), CRLF, arg);
  }

  lemma Regroup(a: bytes, b: bytes, c: bytes, d: bytes, e: bytes)
    ensures a + b + c + d + e + d == a + (b + c + d + e + d)
  {
  }

  lemma LengthLineReads(size: nat, c: byte, n: nat, tail: bytes)
    requires c != LF
    ensures SpecLine(LengthLine(c, n) + tail) == Parse(Good([c] + Decimal(n)), tail)
    ensures LineFits(size, LengthLine(c, n) + tail) <==> |Decimal(n)| + 2 < size
    ensures ([c] + Decimal(n))[1..] == Decimal(n)
  {
    NumberLine(c, [], n);
    assert [c] + [] + Decimal(n) == [c] + Decimal(n);
    LineReads(size, [c] + Decimal(n), tail);
  }

  /** An argument is read back exactly when its length is a 32-bit one. */
  lemma ArgReads(size: nat, a: bytes, tail: bytes)
    ensures SpecArg(EncodeArg(a) + tail)
         == if |a| < 0x8000_0000 then Parse(Good(a), tail) else Parse(Failed(NotANumber), a + CRLF + tail)
    ensures LineFits(size, EncodeArg(a) + tail) <==> |Decimal(|a|)| + 2 < size
  {
    hide SpecLine, LineFits, SpecBulk, LengthLine;
    var rest := a + CRLF + tail;
    assert EncodeArg(a) + tail == LengthLine(DOLLAR, |a|) + rest;
    LengthLineReads(size, DOLLAR, |a|, rest);
    DecimalRoundTrip(|a|, TWO31);
    if |a| < TWO31 {
      BulkReads(a, tail);
    }
  }

  predicate Sendable(args: seq<bytes>)
  {
    |args| < TWO63 && forall i :: 0 <= i < |args| ==> |args[i]| < 0x8000_0000
  }

  lemma {:induction false} EachReads(size: nat, args: seq<bytes>, tail: bytes)
    requires size >= MIN_READ_BUFFER_SIZE
    ensures SpecArgs(EncodeEach(args) + tail, |args|) == Parse(Good(args), tail)
       <==> forall i :: 0 <= i < |args| ==> |args[i]| < TWO31
    ensures ArgsFit(size, EncodeEach(args) + tail, |args|)
         || exists i :: 0 <= i < |args| && |args[i]| >= TWO31
    decreases |args|
  {
    hide SpecArg, EncodeArg, LineFits;
    if args == [] {
      assert [] + tail == tail;
    } else {
      var a, more := args[0], EncodeEach(args[1..]) + tail;
      assert EncodeEach(args) + tail == EncodeArg(a) + more;
      ArgReads(size, a, more);
      if |a| < TWO31 {
        ShortDecimal(|a|);
        EachReads(size, args[1..], tail);
        var p := SpecArgs(more, |args| - 1);
        assert args == [a] + args[1..];
        assert p.out.Good? ==> ([a] + p.out.value)[1..] == p.out.value;
        Shifted(args);
      }
    }
  }

  lemma Shifted(args: seq<bytes>)
    requires args != []
    ensures (forall i :: 0 <= i < |args| ==> |args[i]| < TWO31)
       <==> |args[0]| < TWO31 && forall i :: 0 <= i < |args[1..]| ==> |args[1..][i]| < TWO31
  {
    if |args[0]| < TWO31 && forall i :: 0 <= i < |args[1..]| ==> |args[1..][i]| < TWO31 {
      forall i | 0 <= i < |args|
        ensures |args[i]| < TWO31
      {
        assert i > 0 ==> args[i] == args[1..][i - 1];
      }
    }
    assert forall i :: 0 <= i < |args[1..]| ==> args[1..][i] == args[i + 1];
  }

  lemma {:induction false} DecimalLength(n: nat, digits: nat, power: nat)
    requires digits > 0 && power == Pow10(digits) && n < power
    ensures |Decimal(n)| <= digits
    decreases digits
  {
    if n >= 10 {
      DecimalLength(n / 10, digits - 1, power / 10);
    }
  }

  function Pow10(k: nat): nat
  {
    if k == 0 then 1 else 10 * Pow10(k - 1)
  }

  lemma ShortDecimal(n: nat)
    requires n < TWO31
    ensures |Decimal(n)| <= 10
  {
    assert Pow10(5) == 100000;
    assert Pow10(10) == 10000000000;
    DecimalLength(n, 10, Pow10(10));
  }

  /** What appendArgs writes, parseReq reads back, exactly when every length is a 32-bit one. */
  lemma RequestRoundTrip(args: seq<bytes>, tail: bytes)
    requires |args| < TWO63
    ensures SpecReq(EncodeArgs(args) + tail) == Parse(Good(args), tail) <==> Sendable(args)
  {
    hide SpecLine, LineFits, SpecArgs, EncodeEach, LengthLine, ParseInt;
    var rest := EncodeEach(args) + tail;
    assert EncodeArgs(args) + tail == LengthLine(STAR, |args|) + rest;
    LengthLineReads(MIN_READ_BUFFER_SIZE, STAR, |args|, rest);
    DecimalRoundTrip(|args|, TWO63);
    EachReads(MIN_READ_BUFFER_SIZE, args, tail);
  }

  /** The lines of a request fit every buffer, unless it has ten million million arguments. */
  lemma RequestFits(size: nat, args: seq<bytes>, tail: bytes)
    requires Sendable(args) && size >= MIN_READ_BUFFER_SIZE
    ensures ReqFits(size, EncodeArgs(args) + tail) <==> |Decimal(|args|)| + 2 < size
  {
    hide SpecLine, LineFits, SpecArgs, EncodeEach, LengthLine, ParseInt, ArgsFit;
    var rest := EncodeEach(args) + tail;
    assert EncodeArgs(args) + tail == LengthLine(STAR, |args|) + rest;
    LengthLineReads(size, STAR, |args|, rest);
    DecimalRoundTrip(|args|, TWO63);
    EachReads(size, args, tail);
  }

  /** End to end, under any chunking and whatever ends the stream: parseReq on what appendArgs wrote returns
      the arguments and leaves the reader exactly at the bytes that follow. */
  lemma RequestIsRead(size: nat, args: seq<bytes>, tail: bytes, before: Flow, out: Outcome<seq<bytes>>, after: Flow)
    requires Steady(before) && before.data == EncodeArgs(args) + tail
    requires Sendable(args) && size >= MIN_READ_BUFFER_SIZE && |Decimal(|args|)| + 2 < size
    requires Meets(before, out, after, SpecReq(before.data), ReqFits(size, before.data))
    ensures out == Good(args) && after == before.(data := tail)
  {
    hide Steady, SpecReq, ReqFits, EncodeArgs, Decimal;
    RequestRoundTrip(args, tail);
    RequestFits(size, args, tail);
  }

  // ------------------------------------------------------------------ replies

  /** A reply as a server sends it. */
  datatype Reply =
    | Status(s: bytes)
    | Problem(message: bytes)
    | Integer(i: int)
    | Payload(s: bytes)
    | NilPayload
    | NilList
    | Replies(items: seq<Reply>)

  function HeadLine(r: Reply): bytes
  {
    match r
    case Status(s) => [PLUS] + s
    case Problem(m) => [MINUS] + m
    case Integer(i) => [COLON] + (if i < 0 then [MINUS] + Decimal(-i) else Decimal(i))
    case Payload(s) => [DOLLAR] + Decimal(|s|)
    case NilPayload => [DOLLAR, MINUS, ONE]
    case NilList => [STAR, MINUS, ONE]
    case Replies(items) => [STAR] + Decimal(|items|)
  }

  function EncodeReply(r: Reply): bytes
    decreases r, 1
  {
    HeadLine(r) + CRLF + match r
      case Payload(s) => s + CRLF
      case Replies(items) => EncodeReplies(items)
      case _ => []
  }

  function EncodeReplies(items: seq<Reply>): bytes
    decreases items, 0
  {
    if items == [] then [] else EncodeReply(items[0]) + EncodeReplies(items[1..])
  }

  /** In literal characters. */
  lemma ReplyIs(r: Reply)
    ensures EncodeReply(r) == match r
      case Status(s) => Ascii("+") + s + Ascii("\r\n")
      case Problem(m) => Ascii("-") + m + Ascii("\r\n")
      case Integer(i) => Ascii(":") + (if i < 0 then Ascii("-") + Decimal(-i) else Decimal(i)) + Ascii("\r\n")
      case Payload(s) => Ascii("$") + Decimal(|s|) + Ascii("\r\n") + (s + Ascii("\r\n"))
      case NilPayload => Ascii("$-1\r\n")
      case NilList => Ascii("*-1\r\n")
      case Replies(items) => Ascii("*") + Decimal(|items|) + Ascii("\r\n") + EncodeReplies(items)
  {
    hide Decimal, EncodeReplies;
    assert Ascii("*") == [STAR] && Ascii("$") == [DOLLAR] && Ascii("\r\n") == CRLF;
    assert Ascii("+") == [PLUS] && Ascii("-") == [MINUS] && Ascii(":") == [COLON];
    if r.NilPayload? {
      assert Ascii("$-1\r\n") == [DOLLAR, MINUS, ONE] + CRLF + [];
    } else if r.NilList? {
      assert Ascii("*-1\r\n") == [STAR, MINUS, ONE] + CRLF + [];
    } else if !r.Payload? && !r.Replies? {
      assert EncodeReply(r) == HeadLine(r) + CRLF + [] == HeadLine(r) + CRLF;
    }
  }

  /** What a reply stands for: an error, or a value; nil is an error except inside a list. */
  function MeaningOf(r: Reply): Outcome<Value>
    decreases r, 1
  {
    match r
    case Status(s) => Good(Text(s))
    case Problem(m) => Failed(ErrorReply(m))
    case Integer(i) => Good(Number(i))
    case Payload(s) => Good(Text(s))
    case NilPayload => Failed(NilReply)
    case NilList => Failed(NilReply)
    case Replies(items) => Good(List(Meanings(items)))
  }

  function Meanings(items: seq<Reply>): seq<Value>
    decreases items, 0
  {
    if items == [] then []
    else [if MeaningOf(items[0]).Good? then MeaningOf(items[0]).value else Null] + Meanings(items[1..])
  }

  /** Texts are on one line, numbers and lengths within 64 bits, and lists hold no error replies. */
  predicate WellFormed(r: Reply)
    decreases r, 1
  {
    match r
    case Status(s) => OneLine(s)
    case Problem(m) => OneLine(m)
    case Integer(i) => -TWO63 <= i < TWO63
    case Payload(s) => |s| < TWO63 - 2
    case NilPayload => true
    case NilList => true
    case Replies(items) => |items| < TWO63 && AllWellFormed(items)
  }

  predicate AllWellFormed(items: seq<Reply>)
    decreases items, 0
  {
    items == [] || (!items[0].Problem? && WellFormed(items[0]) && AllWellFormed(items[1..]))
  }

  predicate HeadsFit(size: nat, r: Reply)
    decreases r, 1
  {
    |HeadLine(r)| + 1 < size && (r.Replies? ==> AllHeadsFit(size, r.items))
  }

  predicate AllHeadsFit(size: nat, items: seq<Reply>)
    decreases items, 0
  {
    items == [] || (HeadsFit(size, items[0]) && AllHeadsFit(size, items[1..]))
  }

  lemma TextLine(c: byte, s: bytes)
    requires c != LF && c != CR && OneLine(s)
    ensures OneLine([c] + s)
  {
    assert s != [] ==> ([c] + s)[|s|] == s[|s| - 1];
  }

  lemma NilLines()
    ensures OneLine([DOLLAR, MINUS, ONE]) && OneLine([STAR, MINUS, ONE])
    ensures HeaderOf([DOLLAR, MINUS, ONE]) == HeaderOf([STAR, MINUS, ONE]) == Done(Failed(NilReply))
  {
  }

  lemma IntegerLine(i: int)
    requires -TWO63 <= i < TWO63
    ensures OneLine(HeadLine(Integer(i))) && HeaderOf(HeadLine(Integer(i))) == Done(Good(Number(i)))
  {
    hide Decimal, ParseInt, OneLine;
    var line := HeadLine(Integer(i));
    if i < 0 {
      NumberLine(COLON, [MINUS], -i);
      DecimalRoundTrip(-i, TWO63);
      assert [COLON] + [MINUS] + Decimal(-i) == line;
      assert line[1..] == [MINUS] + Decimal(-i);
    } else {
      NumberLine(COLON, [], i);
      DecimalRoundTrip(i, TWO63);
      assert [COLON] + [] + Decimal(i) == line;
      assert line[1..] == Decimal(i);
    }
  }

  lemma LengthHeader(c: byte, n: nat)
    requires n < TWO63 && (c == DOLLAR || c == STAR)
    ensures HeaderOf([c] + Decimal(n)) == if c == DOLLAR then Bulk(n) else Multi(n)
    ensures OneLine([c] + Decimal(n))
  {
    hide Decimal, ParseInt, OneLine;
    DecimalRoundTrip(n, TWO63);
    DecimalParses(n);
    NumberLine(c, [], n);
    var line := [c] + Decimal(n);
    assert [c] + [] + Decimal(n) == line;
    assert line[1..] == Decimal(n);
    assert line[1] == Decimal(n)[0];
  }

  lemma TextHeader(c: byte, s: bytes)
    requires c == PLUS || c == MINUS
    ensures HeaderOf([c] + s) == Done(if c == PLUS then Good(Text(s)) else Failed(ErrorReply(s)))
  {
    assert ([c] + s)[1..] == s;
  }

  /** The first line is a line, and tells the kinds of reply apart. */
  lemma HeadDecides(r: Reply)
    requires WellFormed(r)
    ensures OneLine(HeadLine(r)) && HeadLine(r) != []
    ensures HeaderOf(HeadLine(r)) == match r
                                     case Payload(s) => Bulk(|s|)
                                     case Replies(items) => Multi(|items|)
                                     case _ => Done(MeaningOf(r))
  {
    hide Decimal, HeaderOf, OneLine;
    match r
    case Status(s) =>
      TextLine(PLUS, s);
      TextHeader(PLUS, s);
    case Problem(m) =>
      TextLine(MINUS, m);
      TextHeader(MINUS, m);
    case Integer(i) => IntegerLine(i);
    case Payload(s) => LengthHeader(DOLLAR, |s|);
    case NilPayload => NilLines();
    case NilList => NilLines();
    case Replies(items) => LengthHeader(STAR, |items|);
  }

  /** A reply is read back as what it stands for, and the reader is left right after it; its lines fit
      a buffer exactly when its own first lines do. */
  lemma {:induction false} ReplyRoundTrip(size: nat, r: Reply, tail: bytes)
    requires WellFormed(r)
    ensures SpecReply(EncodeReply(r) + tail) == Parse(MeaningOf(r), tail)
    ensures ReplyFits(size, EncodeReply(r) + tail) <==> HeadsFit(size, r)
    decreases r, 1
  {
    hide SpecLine, LineFits, HeaderOf, HeadLine, SpecBulk, OneLine, SpecSlice, SliceFits;
    HeadDecides(r);
    var body := match r
      case Payload(s) => s + CRLF
      case Replies(items) => EncodeReplies(items)
      case _ => [];
    assert EncodeReply(r) + tail == HeadLine(r) + CRLF + (body + tail);
    LineReads(size, HeadLine(r), body + tail);
    match r
    case Payload(s) => BulkReads(s, tail);
    case Replies(items) => RepliesRoundTrip(size, items, tail);
    case _ => assert [] + tail == tail;
  }

  lemma {:induction false} RepliesRoundTrip(size: nat, items: seq<Reply>, tail: bytes)
    requires AllWellFormed(items)
    ensures SpecSlice(EncodeReplies(items) + tail, |items|) == Parse(Good(Meanings(items)), tail)
    ensures SliceFits(size, EncodeReplies(items) + tail, |items|) <==> AllHeadsFit(size, items)
    decreases items, 0
  {
    hide SpecReply, ReplyFits, EncodeReply, HeadsFit, WellFormed;
    if items == [] {
      assert [] + tail == tail;
    } else {
      var more := EncodeReplies(items[1..]) + tail;
      assert EncodeReplies(items) + tail == EncodeReply(items[0]) + more;
      ReplyRoundTrip(size, items[0], more);
      RepliesRoundTrip(size, items[1..], tail);
      OnlyNilFails(items[0]);
    }
  }

  lemma OnlyNilFails(r: Reply)
    requires !r.Problem?
    ensures MeaningOf(r).Good? || MeaningOf(r) == Failed(NilReply)
  {
  }

  lemma MeaningIsNoEnd(r: Reply)
    ensures MeaningOf(r) != Failed(EndOfStream) && MeaningOf(r) != Failed(TooSmall)
  {
  }

  /** End to end, under any chunking and with payloads of any size. */
  lemma ReplyIsRead(size: nat, r: Reply, tail: bytes, before: Flow, out: Outcome<Value>, after: Flow)
    requires Steady(before) && before.data == EncodeReply(r) + tail
    requires WellFormed(r) && HeadsFit(size, r)
    requires Meets(before, out, after, SpecReply(before.data), ReplyFits(size, before.data))
    ensures out == MeaningOf(r) && after == before.(data := tail)
  {
    hide Steady, SpecReply, ReplyFits, EncodeReply, HeadsFit, WellFormed;
    MeaningIsNoEnd(r);
    ReplyRoundTrip(size, r, tail);
  }

  /** One that breaks in the first line is not noticed: what there is of the line is taken for the whole. */
  lemma BrokenLineIsTaken(size: nat, s: bytes, before: Flow, out: Outcome<Value>, after: Flow)
    requires Steady(before) && before.data == [PLUS] + s && LF !in s && |s| + 1 < size
    requires Meets(before, out, after, SpecReply(before.data), ReplyFits(size, before.data))
    ensures out == Good(Text(s)) && after == before.(data := [])
  {
    hide Steady;
    var line := [PLUS] + s;
    NoNewline(line);
    assert line[1..] == s;
  }

  lemma NoNewline(line: bytes)
    requires LF !in line
    ensures IndexByte(line, LF) == -1
  {
  }

  /** A connection that breaks in the payload of a reply, or in the line break after it: the error of the
      source is passed on. */
  lemma BrokenPayloadIsReported(size: nat, s: bytes, n: nat, before: Flow, out: Outcome<Value>, after: Flow)
    requires n < |s| + 2 < TWO63 && |Decimal(|s|)| + 2 < size
    requires Steady(before) && before.data == [DOLLAR] + Decimal(|s|) + CRLF + (s + CRLF)[..n]
    requires Meets(before, out, after, SpecReply(before.data), ReplyFits(size, before.data))
    ensures out == Failed(if before.err == Source(EOF) then EndOfStream else Trouble(before.err)) && after == before.(data := [])
  {
    hide Decimal, HeaderOf, OneLine, SpecLine, Steady, LineFits;
    var line, rest := [DOLLAR] + Decimal(|s|), (s + CRLF)[..n];
    LengthHeader(DOLLAR, |s|);
    LineReads(size, line, rest);
    WrapSmall(|s| + 2);
  }

  lemma WrapSmall(n: nat)
    requires n < TWO63
    ensures WrapInt64(n) == n
  {
  }

  /** An error reply inside a list ends the list there: what follows it stays unread. */
  lemma ErrorEndsTheList(message: bytes, tail: bytes)
    requires OneLine(message)
    ensures SpecSlice(EncodeReply(Problem(message)) + tail, 1) == Parse(Failed(ErrorReply(message)), tail)
  {
    ReplyRoundTrip(0, Problem(message), tail);
  }

  // ------------------------------------------------------------------ what is no reply

  /** A line ends in a newline, alone or after a carriage return, which is no part of it. */
  lemma LineEnds(line: bytes, rest: bytes)
    requires 10 !in line
    ensures SpecLine(line + Ascii("\r\n") + rest) == Parse(Good(line), rest)
    ensures (line == [] || line[|line| - 1] != 13) ==> SpecLine(line + Ascii("\n") + rest) == Parse(Good(line), rest)
    ensures forall size: nat :: LineFits(size, line + Ascii("\r\n") + rest) <==> |line| + 1 < size
    ensures forall size: nat :: LineFits(size, line + Ascii("\n") + rest) <==> |line| < size
  {
    assert Ascii("\r\n") == [13, 10] && Ascii("\n") == [10];
    var whole := line + [13];
    assert line + [13, 10] + rest == whole + [10] + rest;
    IndexByteUnique(whole, 10, rest);
    IndexByteUnique(line, 10, rest);
    assert (whole + [10] + rest)[..|whole|] == whole && (whole + [10] + rest)[|whole| + 1..] == rest;
    assert (line + [10] + rest)[..|line|] == line && (line + [10] + rest)[|line| + 1..] == rest;
    assert whole[..|line|] == line;
  }

  predicate AllDigits(s: bytes)
  {
    s != [] && forall i :: 0 <= i < |s| ==> 48 <= s[i] <= 57
  }

  /** An integer: digits, perhaps after a sign. */
  predicate IsInteger(s: bytes)
  {
    AllDigits(s) || (s != [] && (s[0] == 43 || s[0] == 45) && AllDigits(s[1..]))
  }

  lemma {:induction false} DigitsParse(s: bytes)
    ensures ParseUint(s).Some? <==> AllDigits(s)
    decreases |s|
  {
    if |s| > 1 {
      DigitsParse(s[..|s| - 1]);
      assert s == s[..|s| - 1] + [s[|s| - 1]];
    }
  }

  lemma OnlyIntegersParse(s: bytes, limit: nat)
    ensures ParseInt(s, limit).Some? ==> IsInteger(s)
  {
    DigitsParse(s);
    if s != [] {
      DigitsParse(s[1..]);
    }
  }

  /** Zeros before a number and a plus sign make no difference. */
  lemma {:induction false} LeadingZeros(z: nat, n: nat, limit: nat)
    ensures ParseUint(seq(z, i => 48) + Decimal(n)) == Some(n)
    ensures n < limit ==> ParseInt(Ascii("+") + Decimal(n), limit) == Some(n)
    decreases n
  {
    var s, zeros := seq(z, i => 48) + Decimal(n), seq(z, i => 48);
    if n >= 10 {
      LeadingZeros(z, n / 10, limit);
      assert s[..|s| - 1] == zeros + Decimal(n / 10);
    } else {
      assert s == zeros + [48 + n];
      assert s[..|s| - 1] == zeros;
      ZerosParse(z);
    }
    DecimalParses(n);
    assert (Ascii("+") + Decimal(n))[0] == 43 && (Ascii("+") + Decimal(n))[1..] == Decimal(n);
  }

  lemma {:induction false} ZerosParse(z: nat)
    ensures z > 0 ==> ParseUint(seq(z, i => 48)) == Some(0)
  {
    if z > 1 {
      ZerosParse(z - 1);
      assert seq(z, i => 48)[..z - 1] == seq(z - 1, i => 48);
    }
  }

  /** Lines that do not start a reply: none of the five signs is an error that quotes the line, an empty line
      panics, a number that is none is an error, and so is nothing at all; a negative number of elements panics. */
  lemma NoReply(line: bytes, rest: bytes)
    requires 10 !in line
    ensures var out := SpecReply(line + Ascii("\r\n") + rest);
            && (line == [] ==> out == Parse(Panicked, rest))
            && (line != [] && line[0] != 43 && line[0] != 45 && line[0] != 58 && line[0] != 36 && line[0] != 42
                ==> out == Parse(Failed(Unexpected(line)), rest))
            && (line != [] && (line[0] == 58 || line[0] == 36 || line[0] == 42) && !IsInteger(line[1..])
                ==> out == Parse(Failed(NotANumber), rest))
            && (forall n: nat :: line == Ascii("*-") + Decimal(n) && 1 < n <= TWO63 ==> out == Parse(Panicked, rest))
    ensures SpecReply([]) == Parse(Failed(EndOfStream), [])
  {
    hide SpecLine, ParseInt, SpecSlice, SpecBulk, Decimal, IsInteger;
    LineEnds(line, rest);
    if line != [] {
      OnlyIntegersParse(line[1..], TWO63);
      NullIsInteger(line);
    }
    forall n: nat | line == Ascii("*-") + Decimal(n) && 1 < n <= TWO63
      ensures SpecReply(line + Ascii("\r\n") + rest) == Parse(Panicked, rest)
    {
      NegativeCount(line, n, rest);
    }
    NothingToRead();
  }

  lemma NothingToRead()
    ensures SpecLine([]) == Parse(Failed(EndOfStream), [])
  {
  }

  lemma NullIsInteger(line: bytes)
    requires line != []
    ensures IsNull(line) ==> IsInteger(line[1..])
  {
    if IsNull(line) {
      assert line[1..][1..] == [49];
    }
  }

  lemma NegativeCount(line: bytes, n: nat, rest: bytes)
    requires 10 !in line && line == Ascii("*-") + Decimal(n) && 1 < n <= TWO63
    ensures SpecReply(line + Ascii("\r\n") + rest) == Parse(Panicked, rest)
  {
    hide SpecLine, ParseInt, Decimal;
    LineEnds(line, rest);
    DecimalRoundTrip(n, TWO63);
    assert line[1..] == [MINUS] + Decimal(n);
    assert !IsNull(line) by { NotMinusOne(n); }
    assert SpecSlice(rest, 0 - n) == Parse(Panicked, rest);
  }

  lemma NotMinusOne(n: nat)
    requires n > 1
    ensures Decimal(n) != [ONE]
  {
    DecimalParses(n);
    assert [ONE][..0] == [];
  }

  /** The same for requests: an argument must start with a dollar, and what does not start with a star is the only
      argument. */
  lemma NoRequest(line: bytes, rest: bytes)
    requires 10 !in line
    ensures var out := SpecReq(line + Ascii("\r\n") + rest);
            && (line == [] ==> out == Parse(Panicked, rest))
            && (line != [] && line[0] != 42 ==> out == Parse(Good([line]), rest))
            && (line != [] && line[0] == 42 && !IsInteger(line[1..]) ==> out == Parse(Failed(NotANumber), rest))
    ensures var arg := SpecArg(line + Ascii("\r\n") + rest);
            && (line == [] ==> arg == Parse(Panicked, rest))
            && (line != [] && line[0] != 36 ==> arg == Parse(Failed(Unexpected(line)), rest))
            && (line != [] && line[0] == 36 && !IsInteger(line[1..]) ==> arg == Parse(Failed(NotANumber), rest))
  {
    hide SpecLine, ParseInt, SpecArgs, SpecBulk, IsInteger;
    LineEnds(line, rest);
    if line != [] {
      OnlyIntegersParse(line[1..], TWO63);
      OnlyIntegersParse(line[1..], TWO31);
    }
  }
}
