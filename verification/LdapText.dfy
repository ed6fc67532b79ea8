/**
 Search filters as they are written (sections 3 and 4 of RFC 4515) and as they are sent (section 4.5.1 of
 RFC 4511), in literal characters and numbers: every spelling of a value is read as that value, and every
 kind of filter has its own operator and its own tag.
 */
module LdapText {
  import opened Base
  import opened Utf8
  import opened BerPrimitives
  import opened BerTree
  import opened LdapFilter
  import opened LdapRoundTrip
  import opened LdapNormalForm

  // ------------------------------------------------------------------ characters

  const LOWER_DIGITS: string := "0123456789abcdef"
  const UPPER_DIGITS: string := "0123456789ABCDEF"

  /** A hexadecimal digit in either case. */
  function Digit(n: nat, upper: bool): (d: byte)
    requires n < 16
    ensures d < 128
  {
    (if upper then UPPER_DIGITS else LOWER_DIGITS)[n] as int
  }

  lemma DigitValue(n: nat, upper: bool)
    requires n < 16
    ensures HexValue(Digit(n, upper)) == Some(n)
  {
  }

  ghost predicate IsDigit(c: byte)
  {
    exists n: nat, upper: bool :: n < 16 && Digit(n, upper) == c
  }

  /** Nothing else is one. */
  lemma DigitOnly(c: byte)
    ensures HexValue(c).Some? <==> IsDigit(c)
  {
    if 48 <= c <= 57 {
      assert Digit(c - 48, false) == c;
    } else if 97 <= c <= 102 {
      assert Digit(c - 87, false) == c;
    } else if 65 <= c <= 70 {
      assert Digit(c - 55, true) == c;
    }
  }

  // ------------------------------------------------------------------ values

  /** A value as it may be written: stretches of text, and octets with their two digits in either case. */
  datatype Piece = Chars(text: bytes) | Octet(high: nat, low: nat, upperHigh: bool, upperLow: bool)

  /** Text that stands for itself; no closing parenthesis, star or backslash in it. */
  predicate PieceOk(p: Piece)
  {
    match p
    case Chars(text) => ValidText(text) && 41 !in text && 42 !in text && 92 !in text
    case Octet(high, low, _, _) => high < 16 && low < 16
  }

  predicate PiecesOk(ps: seq<Piece>)
  {
    forall i :: 0 <= i < |ps| ==> PieceOk(ps[i])
  }

  function Written(ps: seq<Piece>): bytes
    requires PiecesOk(ps)
  {
    if ps == [] then []
    else
      assert PieceOk(ps[0]);
      (match ps[0]
       case Chars(text) => text
       case Octet(h, l, uh, ul) => [92, Digit(h, uh), Digit(l, ul)]) + Written(ps[1..])
  }

  function Meant(ps: seq<Piece>): bytes
    requires PiecesOk(ps)
  {
    if ps == [] then []
    else
      assert PieceOk(ps[0]);
      (match ps[0]
       case Chars(text) => text
       case Octet(h, l, _, _) => [16 * h + l]) + Meant(ps[1..])
  }

  /** A backslash and two digits, in either case, are the octet they spell. */
  lemma UnescapeDigits(h: nat, l: nat, upperHigh: bool, upperLow: bool, rest: bytes)
    requires h < 16 && l < 16
    ensures Unescape([92, Digit(h, upperHigh), Digit(l, upperLow)] + rest) == Prepend([16 * h + l], Unescape(rest))
  {
    hide DecodeRune, EncodeRune, HexValue, Digit, Unescape;
    var s := [92, Digit(h, upperHigh), Digit(l, upperLow)] + rest;
    DigitValue(h, upperHigh);
    DigitValue(l, upperLow);
    AsciiRune(s);
    UnescapeStep(s);
    assert s[3..] == rest;
  }

  /** Anything else after a backslash is an error, or the panic where there is one octet only. */
  lemma UnescapeOthers(s: bytes)
    requires s != [] && s[0] == 92 && (|s| > 2 ==> !IsDigit(s[1]) || !IsDigit(s[2]))
    ensures Unescape(s) == if |s| == 2 then Crashed else Malformed
  {
    hide DecodeRune, EncodeRune, HexValue, IsDigit, Unescape;
    AsciiRune(s);
    UnescapeStep(s);
    if |s| > 2 {
      DigitOnly(s[1]);
      DigitOnly(s[2]);
    }
  }

  /** Text without a backslash, ASCII or not, is itself. */
  lemma {:induction false} UnescapeChars(text: bytes, rest: bytes)
    requires ValidText(text) && 92 !in text
    ensures Unescape(text + rest) == Prepend(text, Unescape(rest))
    decreases |text|
  {
    hide DecodeRune, EncodeRune, HexValue, Unescape;
    if text == [] {
      assert text + rest == rest;
      NothingPrepended(Unescape(rest));
    } else {
      var w := DecodeRune(text).width;
      RuneIsLocal(text, rest);
      RuneVersusOctet(text);
      UnescapeStep(text + rest);
      assert (text + rest)[w..] == text[w..] + rest;
      UnescapeChars(text[w..], rest);
      PrependTwice(text[..w], text[w..], Unescape(rest));
      assert text[..w] + text[w..] == text;
    }
  }

  /** Every spelling of a value is read as the value. */
  lemma {:induction false} UnescapeWritten(ps: seq<Piece>)
    requires PiecesOk(ps)
    ensures Unescape(Written(ps)) == Text(Meant(ps))
  {
    hide Unescape, Digit, ValidText;
    if ps == [] {
      UnescapeNothing();
    } else {
      assert PieceOk(ps[0]);
      UnescapeWritten(ps[1..]);
      match ps[0]
      case Chars(text) => UnescapeChars(text, Written(ps[1..]));
      case Octet(h, l, uh, ul) => UnescapeDigits(h, l, uh, ul, Written(ps[1..]));
    }
  }

  lemma UnescapeNothing()
    ensures Unescape([]) == Text([])
  {
  }

  lemma {:induction false} WrittenIsCondition(ps: seq<Piece>)
    requires PiecesOk(ps)
    ensures ValidText(Written(ps)) && 41 !in Written(ps) && 42 !in Written(ps)
  {
    hide ValidText;
    if ps == [] {
      AsciiIsValid([]);
    } else {
      assert PieceOk(ps[0]);
      WrittenIsCondition(ps[1..]);
      match ps[0]
      case Chars(text) => ValidTextConcat(text, Written(ps[1..]));
      case Octet(h, l, uh, ul) =>
        var octet := [92, Digit(h, uh), Digit(l, ul)];
        DigitIsNeither(h, uh);
        DigitIsNeither(l, ul);
        AsciiIsValid(octet);
        ValidTextConcat(octet, Written(ps[1..]));
    }
  }

  lemma DigitIsNeither(n: nat, upper: bool)
    requires n < 16
    ensures Digit(n, upper) != 41 && Digit(n, upper) != 42
  {
  }

  // ------------------------------------------------------------------ comparisons

  /** The comparison operators and their choices in the Filter of section 4.5.1 of RFC 4511. */
  predicate OperatorIs(op: string, tag: nat)
  {
    (op == "=" && tag == 3) || (op == ">=" && tag == 5) || (op == "<=" && tag == 6) || (op == "~=" && tag == 8)
  }

  /** An attribute's name before one of them. */
  predicate NameOk(attr: bytes, op: string)
  {
    && ValidText(attr) && 41 !in attr && 58 !in attr && 61 !in attr
    && (attr != [] ==> attr[0] != 40 && attr[0] != 38 && attr[0] != 124 && attr[0] != 33)
    && (op == "=" && attr != [] ==> attr[|attr| - 1] != 62 && attr[|attr| - 1] != 60 && attr[|attr| - 1] != 126)
  }

  lemma OperatorText(op: string, tag: nat)
    requires OperatorIs(op, tag)
    ensures Comparison(tag) && Operator(tag) == Ascii(op)
    ensures Operator(tag) != [] && Operator(tag)[0] <= 0x7F && !OpensSpecial(Operator(tag)[0])
  {
  }

  lemma NameIsAttr(attr: bytes, op: string, tag: nat)
    requires OperatorIs(op, tag) && NameOk(attr, op)
    ensures AttrText(attr) && AttrOk(attr, tag == FILTER_EQUALITY) && (attr != [] ==> !OpensSpecial(attr[0]))
  {
    hide ValidText;
  }

  /** The packet of an attribute value assertion. */
  predicate IsAssertion(p: Packet, tag: nat, attr: bytes, value: bytes)
  {
    && p.id == Identifier(Context, Constructed, tag)
    && p.children == [Packet(Identifier(Universal, Primitive, 4), StringValue(attr), attr, []),
                      Packet(Identifier(Universal, Primitive, 4), StringValue(value), value, [])]
    && p.data == Bytes(p.children[0]) + Bytes(p.children[1])
  }

  /** A comparison compiles to its choice with the name and the value that is spelled, however it is spelled. */
  lemma CompileSpelled(attr: bytes, op: string, tag: nat, ps: seq<Piece>)
    requires OperatorIs(op, tag) && NameOk(attr, op) && PiecesOk(ps)
    ensures var r := CompileText(Ascii("(") + attr + Ascii(op) + Written(ps) + Ascii(")"));
            r.Compiled? && IsAssertion(r.packet, tag, attr, Meant(ps))
  {
    hide ScanItem, ValidText, CompileAt, CompileItem, Unescape, AppendChild, AddParts, Split, Written, Meant, Build, PiecesOk,
         IsAssertion, OpensSpecial, HalfOperator, Operator, Comparison, Ascii;
    var c := Written(ps);
    WrittenIsCondition(ps);
    UnescapeWritten(ps);
    OperatorText(op, tag);
    NameIsAttr(attr, op, tag);
    var t := Operator(tag) + (c + ([RPAREN] + []));
    var sc := Scan(ReadingCondition, Some(tag), attr, false, [], c);
    DispatchItem(attr, t);
    ScanComparison(tag, attr, c, []);
    var p := AppendChild(AppendChild(Shell(tag), Octets(attr)), Octets(Meant(ps)));
    BuildsComparison(tag, sc, Meant(ps));
    CompileClosed(attr + t, tag, sc, |attr| + |op| + |c|, p);
    var text := Ascii("(") + attr + Ascii(op) + c + Ascii(")");
    assert text == [LPAREN] + (attr + t);
    assert text[1..] == attr + t;
    AssertionPacket(tag, attr, Meant(ps));
  }

  lemma BuildsComparison(tag: nat, sc: Scan, value: bytes)
    requires Comparison(tag) && STAR !in sc.condition && Unescape(sc.condition) == Text(value)
    ensures Build(tag, sc) == Whole(AppendChild(AppendChild(Shell(tag), Octets(sc.attr)), Octets(value)))
  {
    hide Unescape, AppendChild, AddParts, Split;
    assert sc.condition != [STAR] by { assert STAR in [STAR]; }
  }

  lemma AssertionPacket(tag: nat, attr: bytes, value: bytes)
    ensures IsAssertion(AppendChild(AppendChild(Shell(tag), Octets(attr)), Octets(value)), tag, attr, value)
  {
    hide Bytes;
    var p := AppendChild(AppendChild(Shell(tag), Octets(attr)), Octets(value));
    assert p.children == [Octets(attr), Octets(value)];
    assert p.data == [] + Bytes(Octets(attr)) + Bytes(Octets(value));
    assert [] + Bytes(Octets(attr)) == Bytes(Octets(attr));
  }

  // ------------------------------------------------------------------ what is printed

  /** EscapeFilter writes two lower-case digits for NUL, the parentheses, the star, the backslash and what is not
      ASCII, and leaves every other octet as it is. */
  lemma EscapeIs(c: byte, s: bytes)
    ensures Escape([c] + s)
         == (if c == 0 || c == 40 || c == 41 || c == 42 || c == 92 || c >= 128
             then [92, Digit(c / 16, false), Digit(c % 16, false)] else [c]) + Escape(s)
    ensures Escape([]) == []
  {
    assert ([c] + s)[1..] == s;
  }

  /** The text of every kind of filter. */
  lemma PrintIs(f: Filter)
    requires Compilable(f)
    ensures Print(f) == Ascii("(") + PrintBody(f) + Ascii(")")
    ensures PrintBody(f) == match f
      case And(fs) => Ascii("&") + PrintAll(fs)
      case Or(fs) => Ascii("|") + PrintAll(fs)
      case Not(g) => Ascii("!") + Print(g)
      case Compare(kind, attr, value) => attr + (Ascii(OperatorOf(kind)) + Escape(value))
      case Present(attr) => attr + Ascii("=*")
      case Substrings(attr, initial, any, last) =>
        attr + (Ascii("=") + (Escape(initial) + Ascii("*") + (Starred(any) + Escape(last))))
      case Extensible(attr, dn, rule, value) =>
        attr + (if dn then Ascii(":dn") else []) + (if rule != [] then Ascii(":") + rule else []) + Ascii(":=") + Escape(value)
  {
    hide Escape, Starred, PrintAll, Print;
    AsciiLiterals();
    PrintUnfolds(f);
    if f.Compare? {
      OperatorText(OperatorOf(f.kind), f.kind);
    }
  }

  function OperatorOf(kind: nat): (op: string)
    ensures AsciiText(op)
  {
    if kind == 3 then "=" else if kind == 5 then ">=" else if kind == 6 then "<=" else "~="
  }

  lemma PrintUnfolds(f: Filter)
    ensures Print(f) == Ascii("(") + PrintBody(f) + Ascii(")")
  {
    hide PrintBody;
    assert Ascii("(") == [LPAREN] && Ascii(")") == [RPAREN];
  }

  lemma AsciiLiterals()
    ensures Ascii("&") == [AMPERSAND] && Ascii("|") == [BAR] && Ascii("!") == [EXCLAMATION] && Ascii(":") == [COLON]
    ensures Ascii("=*") == [EQUAL, STAR] && Ascii("=") == [EQUAL] && Ascii("*") == [STAR]
    ensures Ascii(":dn") == DN && Ascii(":=") == ASSIGN
  {
  }

  // ------------------------------------------------------------------ what is built

  function ContextString(tag: nat, s: bytes): Packet
  {
    Packet(Identifier(Context, Primitive, tag), StringValue(s), s, [])
  }

  function OctetString(s: bytes): Packet
  {
    Packet(Identifier(Universal, Primitive, 4), StringValue(s), s, [])
  }

  function Choice(tag: nat, children: seq<Packet>): Packet
  {
    Packet(Identifier(Context, Constructed, tag), NoValue, ConcatBytes(children), children)
  }

  function IfThere(tag: nat, s: bytes): seq<Packet>
  {
    if s == [] then [] else [ContextString(tag, s)]
  }

  /** The packet of every kind of filter, with the tags of section 4.5.1 of RFC 4511. */
  lemma PacketIs(f: Filter)
    ensures ToPacket(f) == match f
      case And(fs) => Choice(0, ToPackets(fs))
      case Or(fs) => Choice(1, ToPackets(fs))
      case Not(g) => Choice(2, [ToPacket(g)])
      case Compare(kind, attr, value) => Choice(kind, [OctetString(attr), OctetString(value)])
      case Present(attr) => ContextString(7, attr)
      case Substrings(attr, initial, any, last) =>
        var parts := IfThere(0, initial) + seq(|any|, i requires 0 <= i < |any| => ContextString(1, any[i])) + IfThere(2, last);
        Choice(4, [OctetString(attr), Packet(Identifier(Universal, Constructed, 16), NoValue, ConcatBytes(parts), parts)])
      case Extensible(attr, dn, rule, value) =>
        Choice(9, IfThere(1, rule) + IfThere(2, attr) + [ContextString(3, value)]
                  + if dn then [Packet(Identifier(Context, Primitive, 4), BoolValue(true), [1], [])] else [])
  {
    hide Bytes, ConcatBytes, AppendAll;
    match f
    case And(fs) => AppendedTo(Shell(0), ToPackets(fs));
    case Or(fs) => AppendedTo(Shell(1), ToPackets(fs));
    case Not(g) => OneAppended(Shell(2), ToPacket(g));
    case Compare(kind, attr, value) => TwoAppended(Shell(kind), OctetString(attr), OctetString(value));
    case Present(_) =>
    case Substrings(attr, initial, any, last) =>
      AnyPacketsAre(any);
      var parts := IfThere(0, initial) + seq(|any|, i requires 0 <= i < |any| => ContextString(1, any[i])) + IfThere(2, last);
      assert PartPackets(initial, any, last) == parts;
      AppendedTo(EmptySequence(), parts);
      TwoAppended(Shell(4), OctetString(attr), AppendAll(EmptySequence(), parts));
    case Extensible(attr, dn, rule, value) =>
      OneIsOneOctet();
      AppendedTo(Shell(9), AssertionPackets(attr, dn, rule, value));
  }

  lemma OneIsOneOctet()
    ensures IntBytes(1) == [1]
  {
  }

  lemma {:induction false} AnyPacketsAre(any: seq<bytes>)
    ensures AnyPackets(any) == seq(|any|, i requires 0 <= i < |any| => ContextString(1, any[i]))
  {
    if any != [] {
      AnyPacketsAre(any[1..]);
    }
  }

  lemma AppendedTo(p: Packet, cs: seq<Packet>)
    requires p.data == [] && p.children == []
    ensures AppendAll(p, cs) == p.(data := ConcatBytes(cs), children := cs)
  {
    hide Bytes, ConcatBytes, AppendAll;
    AppendAllShape(p, cs);
    assert [] + cs == cs && [] + ConcatBytes(cs) == ConcatBytes(cs);
  }

  lemma OneAppended(p: Packet, c: Packet)
    requires p.data == [] && p.children == []
    ensures AppendChild(p, c) == p.(data := ConcatBytes([c]), children := [c])
  {
    hide Bytes;
    assert [c][1..] == [] && ConcatBytes([c]) == Bytes(c) + [] == [] + Bytes(c);
  }

  lemma TwoAppended(p: Packet, c: Packet, d: Packet)
    requires p.data == [] && p.children == []
    ensures AppendChild(AppendChild(p, c), d) == p.(data := ConcatBytes([c, d]), children := [c, d])
  {
    hide Bytes;
    OneAppended(p, c);
    assert [c, d] == [c] + [d];
    ConcatSnoc([c], d);
  }

  /** The first octet that is sent of a filter: "present" is a primitive choice, the others are constructed. */
  lemma FirstOctet(f: Filter)
    requires Compilable(f)
    ensures Bytes(ToPacket(f))[0] == match f
      case And(_) => 0xA0
      case Or(_) => 0xA1
      case Not(_) => 0xA2
      case Compare(kind, _, _) => 0xA0 + kind
      case Present(_) => 0x87
      case Substrings(_, _, _, _) => 0xA4
      case Extensible(_, _, _, _) => 0xA9
  {
    hide ConcatBytes, ToPackets;
    PacketIs(f);
  }

  // ------------------------------------------------------------------ packets that are no filters

  /** "not" without a child, comparisons and substrings with fewer than two, an extensible match whose dnAttributes
      child is no boolean, and "and", "or" and "not" around such a packet. */
  predicate Unprintable(p: Packet)
    decreases p
  {
    var tag := p.id.tag;
    if tag == 0 || tag == 1 then exists c <- p.children :: Unprintable(c)
    else if tag == 2 then p.children == [] || Unprintable(p.children[0])
    else if tag == 3 || tag == 4 || tag == 5 || tag == 6 || tag == 8 then |p.children| < 2
    else tag == 9 && exists c <- p.children :: c.id.tag == 4 && !c.value.BoolValue?
  }

  /** DecompileFilter is an error exactly for those, whatever the packet; other tags print as "()". */
  lemma {:induction false} UnprintableExactly(p: Packet)
    ensures Decompile(p).None? <==> Unprintable(p)
    ensures p.id.tag > 9 ==> Decompile(p) == Some(Ascii("()"))
    decreases p, 1
  {
    hide DecompileParts, Escape, PrintAssertion, ReadAssertion;
    if p.id.tag == 0 || p.id.tag == 1 {
      AllPrintable(p.children);
    } else if p.id.tag == 2 && p.children != [] {
      UnprintableExactly(p.children[0]);
    } else if p.id.tag == 9 {
      AssertionIsRead(p.children, LdapFilter.Assertion([], false, [], []));
    } else if p.id.tag > 9 {
      assert [LPAREN] + [] + [RPAREN] == Ascii("()");
    }
  }

  lemma {:induction false} AllPrintable(ps: seq<Packet>)
    ensures DecompileAll(ps).None? <==> exists c <- ps :: Unprintable(c)
    decreases ps, 0
  {
    hide Decompile, Unprintable;
    if ps != [] {
      UnprintableExactly(ps[0]);
      AllPrintable(ps[1..]);
      assert forall c :: c in ps <==> c == ps[0] || c in ps[1..];
    }
  }

  lemma {:induction false} AssertionIsRead(cs: seq<Packet>, a: LdapFilter.Assertion)
    ensures ReadAssertion(cs, a).None? <==> exists c <- cs :: c.id.tag == 4 && !c.value.BoolValue?
    decreases |cs|
  {
    if cs != [] {
      var c := cs[0];
      assert forall d :: d in cs <==> d == c || d in cs[1..];
      if c.id.tag == 1 {
        AssertionIsRead(cs[1..], a.(rule := c.data));
      } else if c.id.tag == 2 {
        AssertionIsRead(cs[1..], a.(attr := c.data));
      } else if c.id.tag == 3 {
        AssertionIsRead(cs[1..], a.(value := c.data));
      } else if c.id.tag == 4 {
        if c.value.BoolValue? {
          AssertionIsRead(cs[1..], a.(dn := c.value.b));
        }
      } else {
        AssertionIsRead(cs[1..], a);
      }
    }
  }
}
