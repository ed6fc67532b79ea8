/**
 The LDAP search filter compiler and decompiler of ldap.v2/filter.go, with the value escaper of
 ldap.v2/ldap.go (section 3 of RFC 4515).

 The functions say what each step yields on the text that is left; the methods below them walk
 positions, build packets and loop as the source does, and are proved against the functions.
 A Go panic inside compileFilter is recovered into unnamed results, so it comes back as
 (nil, 0, nil) without an error: that is the outcome Panicked.
 */
module LdapFilter {
  import opened Base
  import opened Utf8
  import opened BerPrimitives
  import opened BerTree

  const NUL: byte := 0
  const AMPERSAND: byte := 38
  const LPAREN: byte := 40
  const RPAREN: byte := 41
  const STAR: byte := 42
  const COLON: byte := 58
  const LESS: byte := 60
  const EQUAL: byte := 61
  const GREATER: byte := 62
  const EXCLAMATION: byte := 33
  const BACKSLASH: byte := 92
  const BAR: byte := 124
  const TILDE: byte := 126

  const DN: bytes := [COLON, 100, 110]          // ":dn"
  const DN_COLON: bytes := DN + [COLON]         // ":dn:"
  const DN_ASSIGN: bytes := DN_COLON + [EQUAL]  // ":dn:="
  const ASSIGN: bytes := [COLON, EQUAL]         // ":="
  const AT_LEAST: bytes := [GREATER, EQUAL]     // ">="
  const AT_MOST: bytes := [LESS, EQUAL]         // "<="
  const APPROX: bytes := [TILDE, EQUAL]         // "~="

  const FILTER_AND: nat := 0
  const FILTER_OR: nat := 1
  const FILTER_NOT: nat := 2
  const FILTER_EQUALITY: nat := 3
  const FILTER_SUBSTRINGS: nat := 4
  const FILTER_GREATER_OR_EQUAL: nat := 5
  const FILTER_LESS_OR_EQUAL: nat := 6
  const FILTER_PRESENT: nat := 7
  const FILTER_APPROX: nat := 8
  const FILTER_EXTENSIBLE: nat := 9

  const SUBSTRINGS_INITIAL: nat := 0
  const SUBSTRINGS_ANY: nat := 1
  const SUBSTRINGS_FINAL: nat := 2

  const RULE_ID: nat := 1
  const RULE_TYPE: nat := 2
  const RULE_VALUE: nat := 3
  const RULE_DN_ATTRIBUTES: nat := 4

  // ------------------------------------------------------------------ packets

  /** ber.Encode of an empty constructed packet in the context class. */
  function Shell(tag: nat): Packet
  {
    Packet(Identifier(Context, Constructed, tag), NoValue, [], [])
  }

  /** ber.NewString on a primitive. */
  function NewString(c: Class, tag: nat, s: bytes): Packet
  {
    Packet(Identifier(c, Primitive, tag), StringValue(s), s, [])
  }

  /** ber.NewBoolean on a primitive in the context class. */
  function NewBoolean(tag: nat, b: bool): Packet
  {
    Packet(Identifier(Context, Primitive, tag), BoolValue(b), IntBytes(if b then 1 else 0), [])
  }

  function EmptySequence(): Packet
  {
    Packet(Identifier(Universal, Constructed, TAG_SEQUENCE), NoValue, [], [])
  }

  // ------------------------------------------------------------------ escaping

  predicate MustEscape(c: byte)
  {
    c > 0x7f || c == LPAREN || c == RPAREN || c == BACKSLASH || c == STAR || c == NUL
  }

  function EscapeByte(c: byte): bytes
  {
    if MustEscape(c) then [BACKSLASH, HexDigit(c / 16), HexDigit(c % 16)] else [c]
  }

  function Escape(s: bytes): bytes
  {
    if s == [] then [] else EscapeByte(s[0]) + Escape(s[1..])
  }

  function CountEscapes(s: bytes): nat
  {
    if s == [] then 0 else (if MustEscape(s[0]) then 1 else 0) + CountEscapes(s[1..])
  }

  lemma {:induction false} EscapeSnoc(s: bytes, c: byte)
    ensures Escape(s + [c]) == Escape(s) + EscapeByte(c)
    ensures CountEscapes(s + [c]) == CountEscapes(s) + if MustEscape(c) then 1 else 0
  {
    if s == [] {
      assert [c][1..] == [];
    } else {
      assert (s + [c])[1..] == s[1..] + [c];
      EscapeSnoc(s[1..], c);
    }
  }

  lemma {:induction false} EscapeLength(s: bytes)
    ensures |Escape(s)| == |s| + 2 * CountEscapes(s)
    ensures CountEscapes(s) == 0 ==> Escape(s) == s
  {
    if s != [] {
      EscapeLength(s[1..]);
    }
  }

  /** Every prefix escapes to a prefix, so the second pass never outgrows its buffer. */
  lemma {:induction false} EscapePrefix(s: bytes, i: nat)
    requires i <= |s|
    ensures |Escape(s[..i])| <= |Escape(s)|
    ensures i < |s| ==> |Escape(s[..i])| + |EscapeByte(s[i])| <= |Escape(s)|
    decreases |s| - i
  {
    if i < |s| {
      assert s[..i + 1] == s[..i] + [s[i]];
      EscapeSnoc(s[..i], s[i]);
      EscapePrefix(s, i + 1);
    } else {
      assert s[..i] == s;
    }
  }

  /** EscapeFilter: count what must be escaped, then fill a buffer of the final size. */
  method EscapeFilter(filter: bytes) returns (r: bytes)
    ensures r == Escape(filter)
  {
    assert filter[..0] == [] && Escape([]) == [] && CountEscapes([]) == 0;
    hide Escape, CountEscapes, EscapeByte;
    var escape := 0;
    for i := 0 to |filter|
      invariant escape == CountEscapes(filter[..i])
    {
      assert filter[..i + 1] == filter[..i] + [filter[i]];
      EscapeSnoc(filter[..i], filter[i]);
      if MustEscape(filter[i]) {
        escape := escape + 1;
      }
    }
    assert filter[..|filter|] == filter;
    EscapeLength(filter);
    if escape == 0 {
      return filter;
    }
    var buf := new byte[|filter| + escape * 2];
    var j := 0;
    for i := 0 to |filter|
      invariant j == |Escape(filter[..i])| <= buf.Length
      invariant buf[..j] == Escape(filter[..i])
    {
      var c := filter[i];
      assert filter[..i + 1] == filter[..i] + [c];
      EscapeSnoc(filter[..i], c);
      EscapePrefix(filter, i);
      j := PutEscaped(buf, j, c);
    }
    assert filter[..|filter|] == filter;
    r := buf[..];
  }

  /** The body of the second loop. */
  method PutEscaped(buf: array<byte>, j: nat, c: byte) returns (next: nat)
    requires j + |EscapeByte(c)| <= buf.Length
    modifies buf
    ensures next == j + |EscapeByte(c)| && buf[..next] == old(buf[..j]) + EscapeByte(c)
  {
    if MustEscape(c) {
      buf[j] := BACKSLASH;
      buf[j + 1] := HexDigit(c / 16);
      buf[j + 2] := HexDigit(c % 16);
      next := j + 3;
    } else {
      buf[j] := c;
      next := j + 1;
    }
  }

  datatype Unescaped = Text(s: bytes) | Malformed | Crashed

  function HexValue(c: byte): (r: Option<nat>)
    ensures r.Some? ==> r.value < 16
  {
    if 48 <= c <= 57 then Some(c - 48)
    else if 97 <= c <= 102 then Some(c - 87)
    else if 65 <= c <= 70 then Some(c - 55)
    else None
  }

  function Prepend(s: bytes, u: Unescaped): Unescaped
  {
    match u case Text(t) => Text(s + t) case _ => u
  }

  /** escapedStringToEncodedBytes: a backslash with one character after it slices past the end,
      because the length guard is one short. */
  function Unescape(s: bytes): Unescaped
    decreases |s|
  {
    if s == [] then Text([])
    else
      var r := DecodeRune(s);
      if r.value == RUNE_ERROR then Malformed
      else if r.value == BACKSLASH then
        if |s| < 2 then Malformed
        else if |s| < 3 then Crashed
        else
          var h, l := HexValue(s[1]), HexValue(s[2]);
          if h.Some? && l.Some? then
            Prepend([h.value * 16 + l.value], Unescape(s[3..]))
          else Malformed
      else Prepend(EncodeRune(r.value), Unescape(s[r.width..]))
  }

  method UnescapeString(escaped: bytes) returns (r: Unescaped)
    ensures r == Unescape(escaped)
  {
    hide DecodeRune, EncodeRune, HexValue, Unescape;
    var buffer: bytes := [];
    var i := 0;
    assert escaped[0..] == escaped;
    NothingPrepended(Unescape(escaped));
    while i < |escaped|
      invariant 0 <= i <= |escaped|
      invariant Prepend(buffer, Unescape(escaped[i..])) == Unescape(escaped)
    {
      ghost var left := escaped[i..];
      ghost var was := buffer;
      UnescapeStep(left);
      var rune := DecodeRune(escaped[i..]);
      if rune.value == RUNE_ERROR {
        return Malformed;
      }
      if rune.value == BACKSLASH {
        if i + 2 > |escaped| {
          return Malformed;
        }
        if i + 3 > |escaped| {
          return Crashed;
        }
        var h, l := HexValue(escaped[i + 1]), HexValue(escaped[i + 2]);
        if h.None? || l.None? {
          return Malformed;
        }
        BackslashIsOneWide(escaped[i..]);
        buffer := buffer + [h.value * 16 + l.value];
        assert left[3..] == escaped[i + 3..];
        PrependTwice(was, [h.value * 16 + l.value], Unescape(left[3..]));
        i := i + 2;
      } else {
        buffer := buffer + EncodeRune(rune.value);
        assert left[rune.width..] == escaped[i + rune.width..];
        PrependTwice(was, EncodeRune(rune.value), Unescape(left[rune.width..]));
      }
      i := i + rune.width;
    }
    r := Text(buffer);
    UnescapeStep(escaped[i..]);
    assert buffer + [] == buffer;
  }

  lemma NothingPrepended(u: Unescaped)
    ensures Prepend([], u) == u
  {
    if u.Text? {
      assert [] + u.s == u.s;
    }
  }

  /** One turn of the loop, on what is left of the text. */
  lemma UnescapeStep(s: bytes)
    ensures s == [] ==> Unescape(s) == Text([])
    ensures s != [] ==>
              var r := DecodeRune(s);
              && (r.value == RUNE_ERROR ==> Unescape(s) == Malformed)
              && (r.value != RUNE_ERROR && r.value != BACKSLASH ==>
                    Unescape(s) == Prepend(EncodeRune(r.value), Unescape(s[r.width..])))
    ensures s != [] && DecodeRune(s).value == BACKSLASH ==>
              Unescape(s) == if |s| < 2 then Malformed else if |s| < 3 then Crashed
                             else if HexValue(s[1]).None? || HexValue(s[2]).None? then Malformed
                             else Prepend([HexValue(s[1]).value * 16 + HexValue(s[2]).value], Unescape(s[3..]))
  {
    hide DecodeRune, EncodeRune, HexValue;
  }

  lemma PrependTwice(a: bytes, b: bytes, u: Unescaped)
    ensures Prepend(a, Prepend(b, u)) == Prepend(a + b, u)
  {
    if u.Text? {
      assert a + (b + u.s) == (a + b) + u.s;
    }
  }

  lemma BackslashIsOneWide(s: bytes)
    requires s != [] && DecodeRune(s).value == BACKSLASH
    ensures DecodeRune(s).width == 1
  {
    RuneVersusOctet(s);
  }

  // ------------------------------------------------------------------ one filter item

  datatype ScanState = ReadingAttr | ReadingRule | ReadingCondition

  /** The local variables of the character loop; kind is the tag of the packet once chosen. */
  datatype Scan = Scan(state: ScanState, kind: Option<nat>, attr: bytes, dn: bool, rule: bytes, condition: bytes)

  const START: Scan := Scan(ReadingAttr, None, [], false, [], [])

  /** How the loop ends: at a closing parenthesis, at the end of the text, or at a bad rune. */
  datatype ScanEnd = Closed(scan: Scan, taken: nat) | AtEnd(scan: Scan, taken: nat) | BadRune(scan: Scan)

  /** One turn of the loop on text that starts with rune r: the new variables and the octets taken. */
  function Advance(t: bytes, sc: Scan, r: Rune): (a: (Scan, nat))
    requires t != [] && r == DecodeRune(t)
    ensures 1 <= a.1 <= |t|
  {
    match sc.state
    case ReadingAttr =>
      if r.value == COLON && DN_ASSIGN <= t then
        (sc.(kind := Some(FILTER_EXTENSIBLE), dn := true, state := ReadingCondition), 5)
      else if r.value == COLON && DN_COLON <= t then
        (sc.(kind := Some(FILTER_EXTENSIBLE), dn := true, state := ReadingRule), 4)
      else if r.value == COLON && ASSIGN <= t then
        (sc.(kind := Some(FILTER_EXTENSIBLE), state := ReadingCondition), 2)
      else if r.value == COLON then
        (sc.(kind := Some(FILTER_EXTENSIBLE), state := ReadingRule), 1)
      else if r.value == EQUAL then
        (sc.(kind := Some(FILTER_EQUALITY), state := ReadingCondition), 1)
      else if r.value == GREATER && AT_LEAST <= t then
        (sc.(kind := Some(FILTER_GREATER_OR_EQUAL), state := ReadingCondition), 2)
      else if r.value == LESS && AT_MOST <= t then
        (sc.(kind := Some(FILTER_LESS_OR_EQUAL), state := ReadingCondition), 2)
      else if r.value == TILDE && APPROX <= t then
        (sc.(kind := Some(FILTER_APPROX), state := ReadingCondition), 2)
      else
        (sc.(attr := sc.attr + EncodeRune(r.value)), r.width)
    case ReadingRule =>
      if r.value == COLON && ASSIGN <= t then
        (sc.(state := ReadingCondition), 2)
      else
        (sc.(rule := sc.rule + EncodeRune(r.value)), r.width)
    case ReadingCondition =>
      (sc.(condition := sc.condition + EncodeRune(r.value)), r.width)
  }

  function Later(n: nat, e: ScanEnd): ScanEnd
  {
    match e
    case Closed(sc, m) => Closed(sc, n + m)
    case AtEnd(sc, m) => AtEnd(sc, n + m)
    case BadRune(sc) => e
  }

  function ScanItem(t: bytes, sc: Scan): ScanEnd
    decreases |t|
  {
    if t == [] then AtEnd(sc, 0)
    else
      var r := DecodeRune(t);
      if r.value == RPAREN then Closed(sc, 0)
      else if r.value == RUNE_ERROR then BadRune(sc)
      else
        var (next, n) := Advance(t, sc, r);
        Later(n, ScanItem(t[n..], next))
  }

  /** The packet built so far, nil before an operator was seen. */
  function KindShell(kind: Option<nat>): Option<Packet>
  {
    if kind.None? then None else Some(Shell(kind.value))
  }

  /** strings.Split(s, "*"). */
  function Split(s: bytes): (parts: seq<bytes>)
    ensures |parts| >= 1
    decreases |s|
  {
    var i := IndexByte(s, STAR);
    if i == -1 then [s] else [s[..i]] + Split(s[i + 1..])
  }

  datatype Built = Whole(packet: Packet) | Partial(packet: Packet) | BuildPanic

  function PartTag(i: nat, n: nat): nat
  {
    if i == 0 then SUBSTRINGS_INITIAL else if i == n - 1 then SUBSTRINGS_FINAL else SUBSTRINGS_ANY
  }

  /** The loop over the parts between stars, from part i on; Partial carries nothing of use. */
  function AddParts(parts: seq<bytes>, i: nat, sequence: Packet): Built
    requires i <= |parts|
    decreases |parts| - i
  {
    if i == |parts| then Whole(sequence)
    else if parts[i] == [] then AddParts(parts, i + 1, sequence)
    else match Unescape(parts[i])
      case Malformed => Partial(sequence)
      case Crashed => BuildPanic
      case Text(v) =>
        AddParts(parts, i + 1, AppendChild(sequence, NewString(Context, PartTag(i, |parts|), v)))
  }

  function WithOptional(p: Packet, tag: nat, s: bytes): Packet
  {
    if s != [] then AppendChild(p, NewString(Context, tag, s)) else p
  }

  /** What is made of the variables once the loop has stopped at a parenthesis. */
  function Build(kind: nat, sc: Scan): Built
  {
    var p := Shell(kind);
    if kind == FILTER_EXTENSIBLE then
      var named := WithOptional(WithOptional(p, RULE_ID, sc.rule), RULE_TYPE, sc.attr);
      match Unescape(sc.condition)
      case Malformed => Partial(named)
      case Crashed => BuildPanic
      case Text(v) =>
        var valued := AppendChild(named, NewString(Context, RULE_VALUE, v));
        Whole(if sc.dn then AppendChild(valued, NewBoolean(RULE_DN_ATTRIBUTES, true)) else valued)
    else if kind == FILTER_EQUALITY && sc.condition == [STAR] then
      Whole(NewString(Context, FILTER_PRESENT, sc.attr))
    else if kind == FILTER_EQUALITY && STAR in sc.condition then
      var named := AppendChild(p, NewString(Universal, TAG_OCTET_STRING, sc.attr)).(id := Shell(FILTER_SUBSTRINGS).id);
      match AddParts(Split(sc.condition), 0, EmptySequence())
      case Whole(sequence) => Whole(AppendChild(named, sequence))
      case Partial(_) => Partial(named)
      case BuildPanic => BuildPanic
    else
      match Unescape(sc.condition)
      case Malformed => Partial(p)
      case Crashed => BuildPanic
      case Text(v) =>
        Whole(AppendChild(AppendChild(p, NewString(Universal, TAG_OCTET_STRING, sc.attr)),
                          NewString(Universal, TAG_OCTET_STRING, v)))
  }

  // ------------------------------------------------------------------ compiling

  /** compileFilter on the text from its start position: a packet and the octets taken, an error
      with the packet it carries, or a recovered panic. */
  datatype Outcome = Parsed(packet: Packet, taken: nat) | Failed(partial: Option<Packet>) | Panicked

  function CompileItem(t: bytes): (o: Outcome)
    ensures o.Parsed? ==> o.taken >= 1
  {
    match ScanItem(t, START)
    case BadRune(sc) => Failed(KindShell(sc.kind))
    case AtEnd(sc, _) => Failed(KindShell(sc.kind))
    case Closed(sc, n) =>
      if sc.kind.None? then Failed(None)
      else match Build(sc.kind.value, sc)
        case Whole(p) => Parsed(p, n + 1)
        case Partial(p) => Failed(Some(p))
        case BuildPanic => Panicked
  }

  function CompileAt(t: bytes): (o: Outcome)
    ensures o.Parsed? ==> o.taken >= 1
    decreases |t|, 1
  {
    var r := DecodeRune(t);
    if r.value == RUNE_ERROR then Failed(None)
    else if r.value == LPAREN then
      match CompileAt(t[1..])
      case Parsed(p, n) => Parsed(p, n + 2)
      case o => o
    else if r.value == AMPERSAND then CompileSet(t[1..], Shell(FILTER_AND), 1)
    else if r.value == BAR then CompileSet(t[1..], Shell(FILTER_OR), 1)
    else if r.value == EXCLAMATION then
      match CompileAt(t[1..])
      case Parsed(p, n) => Parsed(AppendChild(Shell(FILTER_NOT), p), n + 1)
      case Failed(Some(p)) => Failed(Some(AppendChild(Shell(FILTER_NOT), p)))
      case _ => Panicked
    else CompileItem(t)
  }

  /** compileFilterSet: children while there is an opening parenthesis, then one more octet. */
  function CompileSet(t: bytes, parent: Packet, taken: nat): (o: Outcome)
    ensures o.Parsed? ==> o.taken >= taken + 1
    decreases |t|, 0
  {
    if t == [] then Failed(Some(parent))
    else if t[0] != LPAREN then Parsed(parent, taken + 1)
    else match CompileAt(t[1..])
      case Failed(_) => Failed(Some(parent))
      case Panicked => Panicked
      case Parsed(child, n) =>
        if n + 1 > |t| then Parsed(AppendChild(parent, child), taken + n + 2)
        else CompileSet(t[n + 1..], AppendChild(parent, child), taken + n + 1)
  }

  /** What CompileFilter yields: a packet, an error, or the slice panic of its own error message when the
      position has run past the end. */
  datatype CompileResult = Compiled(packet: Packet) | CompileError | OutOfRange

  function CompileText(filter: bytes): CompileResult
  {
    if filter == [] || filter[0] != LPAREN then CompileError
    else match CompileAt(filter[1..])
      case Parsed(p, n) =>
        if n + 1 == |filter| then Compiled(p) else if n + 1 > |filter| then OutOfRange else CompileError
      case _ => CompileError
  }

  // ------------------------------------------------------------------ the compiler as it runs

  /** The loop over the parts between stars. */
  method BuildSubstrings(parts: seq<bytes>) returns (r: Built)
    ensures r == AddParts(parts, 0, EmptySequence())
  {
    hide AppendChild, Unescape;
    var sequence := EmptySequence();
    for i := 0 to |parts|
      invariant AddParts(parts, i, sequence) == AddParts(parts, 0, EmptySequence())
    {
      var part := parts[i];
      if part == [] {
        continue;
      }
      var encoded := UnescapeString(part);
      match encoded {
        case Malformed => return Partial(sequence);
        case Crashed => return BuildPanic;
        case Text(v) =>
          sequence := AppendChild(sequence, NewString(Context, PartTag(i, |parts|), v));
      }
    }
    return Whole(sequence);
  }

  /** The switch that builds the packet once the loop has stopped. */
  method BuildPacket(kind: nat, sc: Scan) returns (r: Built)
    ensures r == Build(kind, sc)
  {
    hide Bytes, Unescape, AddParts, Split;
    var p := Shell(kind);
    if kind == FILTER_EXTENSIBLE {
      if |sc.rule| > 0 {
        p := AppendChild(p, NewString(Context, RULE_ID, sc.rule));
      }
      if |sc.attr| > 0 {
        p := AppendChild(p, NewString(Context, RULE_TYPE, sc.attr));
      }
      var encoded := UnescapeString(sc.condition);
      if encoded.Malformed? {
        return Partial(p);
      }
      if encoded.Crashed? {
        return BuildPanic;
      }
      p := AppendChild(p, NewString(Context, RULE_VALUE, encoded.s));
      if sc.dn {
        p := AppendChild(p, NewBoolean(RULE_DN_ATTRIBUTES, sc.dn));
      }
      return Whole(p);
    }
    if kind == FILTER_EQUALITY && sc.condition == [STAR] {
      return Whole(NewString(Context, FILTER_PRESENT, sc.attr));
    }
    if kind == FILTER_EQUALITY && STAR in sc.condition {
      p := AppendChild(p, NewString(Universal, TAG_OCTET_STRING, sc.attr));
      p := p.(id := p.id.(tag := FILTER_SUBSTRINGS));
      var sequence := BuildSubstrings(Split(sc.condition));
      if sequence.Partial? {
        return Partial(p);
      }
      if sequence.BuildPanic? {
        return BuildPanic;
      }
      return Whole(AppendChild(p, sequence.packet));
    }
    var encoded := UnescapeString(sc.condition);
    if encoded.Malformed? {
      return Partial(p);
    }
    if encoded.Crashed? {
      return BuildPanic;
    }
    p := AppendChild(p, NewString(Universal, TAG_OCTET_STRING, sc.attr));
    p := AppendChild(p, NewString(Universal, TAG_OCTET_STRING, encoded.s));
    return Whole(p);
  }

  /** What a call at pos hands back for an outcome. A recovered panic hands back a position that
      counts the parentheses it went through. */
  predicate Reports(o: Outcome, filter: bytes, pos: nat, packet: Option<Packet>, newPos: nat, err: bool)
  {
    match o
    case Parsed(p, n) => packet == Some(p) && newPos == pos + n && !err
    case Failed(q) => packet == q && err
    case Panicked => packet == None && newPos + pos <= |filter| && !err
  }

  lemma LaterTwice(m: nat, n: nat, e: ScanEnd)
    ensures Later(m, Later(n, e)) == Later(m + n, e)
  {
  }

  /** The default branch of compileFilter: the character loop, then the packet. */
  method CompileItemAt(filter: bytes, pos: nat) returns (packet: Option<Packet>, newPos: nat, err: bool)
    requires pos < |filter|
    ensures Reports(CompileItem(filter[pos..]), filter, pos, packet, newPos, err)
  {
    hide DecodeRune, Advance, Build;
    var sc := START;
    newPos := pos;
    while newPos < |filter|
      invariant pos <= newPos <= |filter|
      invariant Later(newPos - pos, ScanItem(filter[newPos..], sc)) == ScanItem(filter[pos..], START)
    {
      var remaining := filter[newPos..];
      var rune := DecodeRune(remaining);
      if rune.value == RPAREN {
        break;
      }
      if rune.value == RUNE_ERROR {
        return KindShell(sc.kind), newPos, true;
      }
      var (next, n) := Advance(remaining, sc, rune);
      assert remaining[n..] == filter[newPos + n..];
      LaterTwice(newPos - pos, n, ScanItem(remaining[n..], next));
      sc := next;
      newPos := newPos + n;
    }
    if newPos == |filter| {
      return KindShell(sc.kind), newPos, true;
    }
    if sc.kind.None? {
      return None, newPos, true;
    }
    var built := BuildPacket(sc.kind.value, sc);
    match built {
      case Partial(p) => return Some(p), newPos, true;
      case BuildPanic => return None, 0, false;
      case Whole(p) => return Some(p), newPos + 1, false;
    }
  }

  /** compileFilter. A nil child passed to AppendChild panics, and the panic is recovered. */
  method CompileFilterAt(filter: bytes, pos: nat) returns (packet: Option<Packet>, newPos: nat, err: bool)
    requires pos <= |filter|
    ensures Reports(CompileAt(filter[pos..]), filter, pos, packet, newPos, err)
    decreases |filter| - pos, 1
  {
    hide AppendChild, CompileItem, SequenceWidth, SequenceValue;
    ghost var t := filter[pos..];
    var rune := DecodeRune(filter[pos..]);
    if rune.value == RUNE_ERROR {
      return None, 0, true;
    }
    AsciiIsOneWide(t);
    if pos < |filter| {
      assert t[1..] == filter[pos + 1..];
    }
    if rune.value == LPAREN {
      packet, newPos, err := CompileFilterAt(filter, pos + rune.width);
      newPos := newPos + 1;
    } else if rune.value == AMPERSAND || rune.value == BAR {
      var tag := if rune.value == AMPERSAND then FILTER_AND else FILTER_OR;
      packet, newPos, err := CompileFilterSetAt(filter, pos + rune.width, Shell(tag), pos);
    } else if rune.value == EXCLAMATION {
      var child;
      child, newPos, err := CompileFilterAt(filter, pos + rune.width);
      if child.None? {
        return None, 0, false;
      }
      packet := Some(AppendChild(Shell(FILTER_NOT), child.value));
    } else {
      packet, newPos, err := CompileItemAt(filter, pos);
    }
  }

  lemma AsciiIsOneWide(t: bytes)
    requires DecodeRune(t).value != RUNE_ERROR
    ensures t != []
    ensures DecodeRune(t).value <= 0x7F ==> DecodeRune(t).width == 1 && t[0] == DecodeRune(t).value
  {
    RuneVersusOctet(t);
  }

  /** compileFilterSet, called for a set that starts at from. */
  method CompileFilterSetAt(filter: bytes, start: nat, parent: Packet, from: nat)
    returns (packet: Option<Packet>, newPos: nat, err: bool)
    requires from < start <= |filter|
    ensures Reports(CompileSet(filter[start..], parent, start - from), filter, from, packet, newPos, err)
    decreases |filter| - start, 0
  {
    hide AppendChild, CompileAt;
    var p := parent;
    var pos := start;
    while pos < |filter| && filter[pos] == LPAREN
      invariant start <= pos
      invariant pos <= |filter| ==>
        CompileSet(filter[pos..], p, pos - from) == CompileSet(filter[start..], parent, start - from)
      invariant pos > |filter| ==>
        CompileSet(filter[start..], parent, start - from) == Parsed(p, pos + 1 - from)
      decreases |filter| - pos
    {
      ghost var t := filter[pos..];
      assert t[1..] == filter[pos + 1..];
      var child, newAt, e := CompileFilterAt(filter, pos + 1);
      if e {
        return Some(p), pos, true;
      }
      if child.None? {
        return None, 0, false;
      }
      ghost var n := newAt - (pos + 1);
      if newAt <= |filter| {
        assert t[n + 1..] == filter[newAt..];
      }
      pos := newAt;
      p := AppendChild(p, child.value);
    }
    if pos == |filter| {
      return Some(p), pos, true;
    }
    return Some(p), pos + 1, false;
  }

  /** CompileFilter. */
  method CompileFilter(filter: bytes) returns (r: CompileResult)
    ensures r == CompileText(filter)
  {
    if |filter| == 0 || filter[0] != LPAREN {
      return CompileError;
    }
    var packet, pos, err := CompileFilterAt(filter, 1);
    if err {
      return CompileError;
    }
    if pos != |filter| {
      return if pos > |filter| then OutOfRange else CompileError;
    }
    return Compiled(packet.value);
  }

  // ------------------------------------------------------------------ decompiling

  /** DecompileFilter: the text, or None for the error a recovered panic becomes. */
  function Decompile(p: Packet): Option<bytes>
    decreases p, 1
  {
    match DecompileBody(p)
    case None => None
    case Some(b) => Some([LPAREN] + b + [RPAREN])
  }

  function DecompileAll(ps: seq<Packet>): Option<bytes>
    decreases ps, 0
  {
    if ps == [] then Some([])
    else
      match Decompile(ps[0])
      case None => None
      case Some(a) =>
        match DecompileAll(ps[1..])
        case None => None
        case Some(b) => Some(a + b)
  }

  function DecompileBody(p: Packet): Option<bytes>
    decreases p, 0
  {
    if p.id.tag == FILTER_AND || p.id.tag == FILTER_OR then
      match DecompileAll(p.children)
      case None => None
      case Some(b) => Some([if p.id.tag == FILTER_AND then AMPERSAND else BAR] + b)
    else if p.id.tag == FILTER_NOT then
      if p.children == [] then None
      else match Decompile(p.children[0])
        case None => None
        case Some(b) => Some([EXCLAMATION] + b)
    else if p.id.tag == FILTER_SUBSTRINGS then
      if |p.children| < 2 then None
      else Some(p.children[0].data + [EQUAL] + DecompileParts(p.children[1].children, 0))
    else if p.id.tag == FILTER_PRESENT then Some(p.data + [EQUAL, STAR])
    else if p.id.tag == FILTER_EXTENSIBLE then
      match ReadAssertion(p.children, Assertion([], false, [], []))
      case None => None
      case Some(a) => Some(PrintAssertion(a))
    else if Comparison(p.id.tag) then
      if |p.children| < 2 then None
      else Some(p.children[0].data + Operator(p.id.tag) + Escape(p.children[1].data))
    else Some([])
  }

  predicate Comparison(tag: nat)
  {
    tag == FILTER_EQUALITY || tag == FILTER_GREATER_OR_EQUAL || tag == FILTER_LESS_OR_EQUAL || tag == FILTER_APPROX
  }

  function Operator(tag: nat): bytes
    requires Comparison(tag)
  {
    if tag == FILTER_EQUALITY then [EQUAL]
    else if tag == FILTER_GREATER_OR_EQUAL then AT_LEAST
    else if tag == FILTER_LESS_OR_EQUAL then AT_MOST
    else APPROX
  }

  /** What child i of a substrings sequence prints. */
  function DecompilePart(c: Packet, i: nat): bytes
  {
    (if i == 0 && c.id.tag != SUBSTRINGS_INITIAL then [STAR] else []) +
    Escape(c.data) +
    (if c.id.tag != SUBSTRINGS_FINAL then [STAR] else [])
  }

  function DecompileParts(cs: seq<Packet>, i: nat): bytes
    decreases |cs|
  {
    if cs == [] then [] else DecompilePart(cs[0], i) + DecompileParts(cs[1..], i + 1)
  }

  datatype Assertion = Assertion(attr: bytes, dn: bool, rule: bytes, value: bytes)

  /** The loop over the children of an extensible match; the type assertion on the dnAttributes
      child panics unless its Value is a bool. */
  function ReadAssertion(cs: seq<Packet>, a: Assertion): Option<Assertion>
    decreases |cs|
  {
    if cs == [] then Some(a)
    else
      var c := cs[0];
      if c.id.tag == RULE_ID then ReadAssertion(cs[1..], a.(rule := c.data))
      else if c.id.tag == RULE_TYPE then ReadAssertion(cs[1..], a.(attr := c.data))
      else if c.id.tag == RULE_VALUE then ReadAssertion(cs[1..], a.(value := c.data))
      else if c.id.tag == RULE_DN_ATTRIBUTES then
        if c.value.BoolValue? then ReadAssertion(cs[1..], a.(dn := c.value.b)) else None
      else ReadAssertion(cs[1..], a)
  }

  function PrintAssertion(a: Assertion): bytes
  {
    a.attr + (if a.dn then DN else []) + (if a.rule != [] then [COLON] + a.rule else []) + ASSIGN + Escape(a.value)
  }

  // ------------------------------------------------------------------ the decompiler as it runs

  lemma {:induction false} DecompileAllSnoc(ps: seq<Packet>, i: nat)
    requires i < |ps|
    ensures DecompileAll(ps[..i]).Some? && Decompile(ps[i]).Some? ==>
              DecompileAll(ps[..i + 1]) == Some(DecompileAll(ps[..i]).value + Decompile(ps[i]).value)
    ensures DecompileAll(ps[..i]).None? || Decompile(ps[i]).None? ==> DecompileAll(ps[..i + 1]).None?
    decreases i
  {
    hide Decompile;
    if i == 0 {
      assert ps[..1][1..] == [] && ps[..1][0] == ps[0];
      if Decompile(ps[0]).Some? {
        assert Decompile(ps[0]).value + [] == [] + Decompile(ps[0]).value;
      }
    } else {
      DecompileAllSnoc(ps[1..], i - 1);
      assert ps[..i + 1][1..] == ps[1..][..i];
      assert ps[..i][1..] == ps[1..][..i - 1];
      var a, b, c := Decompile(ps[0]), DecompileAll(ps[1..][..i - 1]), Decompile(ps[i]);
      if a.Some? && b.Some? && c.Some? {
        assert a.value + (b.value + c.value) == (a.value + b.value) + c.value;
      }
    }
  }

  lemma {:induction false} DecompileAllFails(ps: seq<Packet>, i: nat)
    requires i <= |ps| && DecompileAll(ps[..i]).None?
    ensures DecompileAll(ps).None?
    decreases |ps| - i
  {
    hide DecompileBody, Decompile;
    if i < |ps| {
      DecompileAllSnoc(ps, i);
      DecompileAllFails(ps, i + 1);
    } else {
      assert ps[..i] == ps;
    }
  }

  lemma {:induction false} DecompilePartsSnoc(cs: seq<Packet>, i: nat, from: nat)
    requires i < |cs|
    ensures DecompileParts(cs[..i + 1], from) == DecompileParts(cs[..i], from) + DecompilePart(cs[i], from + i)
    decreases i
  {
    hide DecompilePart;
    if i == 0 {
      assert cs[..1][1..] == [] && cs[..1][0] == cs[0];
    } else {
      DecompilePartsSnoc(cs[1..], i - 1, from + 1);
      assert cs[..i + 1][1..] == cs[1..][..i];
      assert cs[..i][1..] == cs[1..][..i - 1];
    }
  }

  /** The loop over the parts of a substrings filter. */
  method PrintParts(parts: seq<Packet>) returns (ret: bytes)
    ensures ret == DecompileParts(parts, 0)
  {
    hide Escape;
    ret := [];
    for i := 0 to |parts|
      invariant ret == DecompileParts(parts[..i], 0)
    {
      DecompilePartsSnoc(parts, i, 0);
      ghost var before := ret;
      if i == 0 && parts[i].id.tag != SUBSTRINGS_INITIAL {
        ret := ret + [STAR];
      }
      var escaped := EscapeFilter(parts[i].data);
      ret := ret + escaped;
      if parts[i].id.tag != SUBSTRINGS_FINAL {
        ret := ret + [STAR];
      }
      assert ret == before + DecompilePart(parts[i], i);
    }
    assert parts[..|parts|] == parts;
  }

  /** The extensible match branch: read the children, then print what was found. */
  method PrintExtensible(children: seq<Packet>) returns (r: Option<bytes>)
    ensures r == match ReadAssertion(children, Assertion([], false, [], []))
                 case None => None
                 case Some(a) => Some(PrintAssertion(a))
  {
    hide Escape;
    var a := Assertion([], false, [], []);
    for i := 0 to |children|
      invariant ReadAssertion(children[i..], a) == ReadAssertion(children, Assertion([], false, [], []))
    {
      var child := children[i];
      assert children[i..][0] == child && children[i..][1..] == children[i + 1..];
      if child.id.tag == RULE_ID {
        a := a.(rule := child.data);
      } else if child.id.tag == RULE_TYPE {
        a := a.(attr := child.data);
      } else if child.id.tag == RULE_VALUE {
        a := a.(value := child.data);
      } else if child.id.tag == RULE_DN_ATTRIBUTES {
        if !child.value.BoolValue? {
          return None;
        }
        a := a.(dn := child.value.b);
      }
    }
    var ret: bytes := [];
    if |a.attr| > 0 {
      ret := ret + a.attr;
    }
    if a.dn {
      ret := ret + DN;
    }
    if |a.rule| > 0 {
      ret := ret + [COLON] + a.rule;
    }
    var escaped := EscapeFilter(a.value);
    ret := ret + ASSIGN + escaped;
    assert ret == PrintAssertion(a);
    return Some(ret);
  }

  /** DecompileFilter: recursion, with the text accumulated step by step. */
  method DecompileFilter(p: Packet) returns (r: Option<bytes>)
    ensures r == Decompile(p)
    decreases p
  {
    hide Escape, ReadAssertion, PrintAssertion, DecompileParts;
    var body: bytes := [];
    if p.id.tag == FILTER_AND || p.id.tag == FILTER_OR {
      ghost var mark: bytes := [if p.id.tag == FILTER_AND then AMPERSAND else BAR];
      body := [if p.id.tag == FILTER_AND then AMPERSAND else BAR];
      for i := 0 to |p.children|
        invariant DecompileAll(p.children[..i]).Some?
        invariant body == mark + DecompileAll(p.children[..i]).value
      {
        DecompileAllSnoc(p.children, i);
        var child := DecompileFilter(p.children[i]);
        if child.None? {
          DecompileAllFails(p.children, i + 1);
          return None;
        }
        body := body + child.value;
      }
      assert p.children[..|p.children|] == p.children;
    } else if p.id.tag == FILTER_NOT {
      if |p.children| == 0 {
        return None;
      }
      var child := DecompileFilter(p.children[0]);
      if child.None? {
        return None;
      }
      body := [EXCLAMATION] + child.value;
    } else if p.id.tag == FILTER_SUBSTRINGS {
      if |p.children| < 2 {
        return None;
      }
      var parts := PrintParts(p.children[1].children);
      body := p.children[0].data + [EQUAL] + parts;
    } else if p.id.tag == FILTER_PRESENT {
      body := p.data + [EQUAL, STAR];
    } else if p.id.tag == FILTER_EXTENSIBLE {
      var extensible := PrintExtensible(p.children);
      if extensible.None? {
        return None;
      }
      body := extensible.value;
    } else if Comparison(p.id.tag) {
      if |p.children| < 2 {
        return None;
      }
      var escaped := EscapeFilter(p.children[1].data);
      body := p.children[0].data + Operator(p.id.tag) + escaped;
    }
    return Some([LPAREN] + body + [RPAREN]);
  }
}
