/**
 What ldap.v2's filter compiler and decompiler are to each other.

 Filter is the grammar of section 3 of RFC 4515. Printing a filter and compiling the text gives
 back its packet; every text the compiler accepts is, as a packet, a filter of this grammar; and
 two accepted forms do not survive decompiling: an item whose value is nothing but two or more
 stars, and a matching rule called "dn" without the dn flag before it.
 */
module LdapRoundTrip {
  import opened Base
  import opened Utf8
  import opened BerPrimitives
  import opened BerTree
  import opened LdapFilter

  datatype Filter =
    | And(fs: seq<Filter>)
    | Or(fs: seq<Filter>)
    | Not(f: Filter)
    | Compare(kind: nat, attr: bytes, value: bytes)
    | Present(attr: bytes)
    | Substrings(attr: bytes, initial: bytes, any: seq<bytes>, last: bytes)  // empty initial or last: absent
    | Extensible(attr: bytes, dn: bool, rule: bytes, value: bytes)           // empty rule: absent

  // ------------------------------------------------------------------ filters as packets and as text

  function AppendAll(p: Packet, cs: seq<Packet>): Packet
    decreases |cs|
  {
    if cs == [] then p else AppendAll(AppendChild(p, cs[0]), cs[1..])
  }

  function Octets(s: bytes): Packet
  {
    NewString(Universal, TAG_OCTET_STRING, s)
  }

  function Optional(tag: nat, s: bytes): seq<Packet>
  {
    if s == [] then [] else [NewString(Context, tag, s)]
  }

  function AnyPackets(any: seq<bytes>): seq<Packet>
  {
    if any == [] then [] else [NewString(Context, SUBSTRINGS_ANY, any[0])] + AnyPackets(any[1..])
  }

  function PartPackets(initial: bytes, any: seq<bytes>, last: bytes): seq<Packet>
  {
    Optional(SUBSTRINGS_INITIAL, initial) + (AnyPackets(any) + Optional(SUBSTRINGS_FINAL, last))
  }

  /** The children of an extensible match, in the order the compiler appends them. */
  function AssertionPackets(attr: bytes, dn: bool, rule: bytes, value: bytes): seq<Packet>
  {
    Optional(RULE_ID, rule) + Optional(RULE_TYPE, attr) + [NewString(Context, RULE_VALUE, value)] +
    (if dn then [NewBoolean(RULE_DN_ATTRIBUTES, true)] else [])
  }

  function ToPacket(f: Filter): Packet
    decreases f, 1
  {
    match f
    case And(fs) => AppendAll(Shell(FILTER_AND), ToPackets(fs))
    case Or(fs) => AppendAll(Shell(FILTER_OR), ToPackets(fs))
    case Not(g) => AppendChild(Shell(FILTER_NOT), ToPacket(g))
    case Compare(kind, attr, value) => AppendChild(AppendChild(Shell(kind), Octets(attr)), Octets(value))
    case Present(attr) => NewString(Context, FILTER_PRESENT, attr)
    case Substrings(attr, initial, any, last) =>
      AppendChild(AppendChild(Shell(FILTER_SUBSTRINGS), Octets(attr)),
                  AppendAll(EmptySequence(), PartPackets(initial, any, last)))
    case Extensible(attr, dn, rule, value) =>
      AppendAll(Shell(FILTER_EXTENSIBLE), AssertionPackets(attr, dn, rule, value))
  }

  function ToPackets(fs: seq<Filter>): seq<Packet>
    decreases fs, 0
  {
    if fs == [] then [] else [ToPacket(fs[0])] + ToPackets(fs[1..])
  }

  /** Text of the middle and last parts: each part, then a star. */
  function Starred(any: seq<bytes>): bytes
  {
    if any == [] then [] else Escape(any[0]) + [STAR] + Starred(any[1..])
  }

  function SubstringsText(initial: bytes, any: seq<bytes>, last: bytes): bytes
  {
    Escape(initial) + [STAR] + (Starred(any) + Escape(last))
  }

  function Print(f: Filter): bytes
    decreases f, 2
  {
    [LPAREN] + PrintBody(f) + [RPAREN]
  }

  function PrintBody(f: Filter): bytes
    decreases f, 1
  {
    match f
    case And(fs) => [AMPERSAND] + PrintAll(fs)
    case Or(fs) => [BAR] + PrintAll(fs)
    case Not(g) => [EXCLAMATION] + Print(g)
    case Compare(kind, attr, value) => attr + ((if Comparison(kind) then Operator(kind) else []) + Escape(value))
    case Present(attr) => attr + [EQUAL, STAR]
    case Substrings(attr, initial, any, last) => attr + ([EQUAL] + SubstringsText(initial, any, last))
    case Extensible(attr, dn, rule, value) => PrintAssertion(Assertion(attr, dn, rule, value))
  }

  function PrintAll(fs: seq<Filter>): bytes
    decreases fs, 0
  {
    if fs == [] then [] else Print(fs[0]) + PrintAll(fs[1..])
  }

  // ------------------------------------------------------------------ the domain

  predicate OpensSpecial(c: byte)
  {
    c == LPAREN || c == AMPERSAND || c == BAR || c == EXCLAMATION
  }

  predicate HalfOperator(c: byte)
  {
    c == GREATER || c == LESS || c == TILDE
  }

  predicate AttrText(attr: bytes)
  {
    ValidText(attr) && RPAREN !in attr && COLON !in attr && EQUAL !in attr
  }

  /** An attribute description the character loop reads back, before an operator that starts
      with '=' or with something else. */
  predicate AttrOk(attr: bytes, beforeEqual: bool)
  {
    && AttrText(attr)
    && (attr != [] ==> !OpensSpecial(attr[0]))
    && (beforeEqual && attr != [] ==> !HalfOperator(attr[|attr| - 1]))
  }

  const DN_RULE: bytes := [100, 110, COLON]  // "dn:"

  predicate NoAssign(rule: bytes)
  {
    forall i :: 0 <= i < |rule| - 1 ==> !(rule[i] == COLON && rule[i + 1] == EQUAL)
  }

  /** A matching rule as the character loop reads one: no ":=" inside, and not "dn:" first. */
  predicate RuleOk(rule: bytes, dn: bool)
  {
    && ValidText(rule) && RPAREN !in rule && NoAssign(rule)
    && (rule != [] ==> rule[0] != EQUAL)
    && (!dn ==> !(DN_RULE <= rule))
  }

  /** Names the character loop can read; any values. */
  predicate Compilable(f: Filter)
    decreases f
  {
    match f
    case And(fs) => forall g <- fs :: Compilable(g)
    case Or(fs) => forall g <- fs :: Compilable(g)
    case Not(g) => Compilable(g)
    case Compare(kind, attr, _) => Comparison(kind) && AttrOk(attr, kind == FILTER_EQUALITY)
    case Present(attr) => AttrOk(attr, true)
    case Substrings(attr, _, any, _) => AttrOk(attr, true) && [] !in any
    case Extensible(attr, dn, rule, _) => AttrOk(attr, false) && RuleOk(rule, dn)
  }

  const DN_NAME: bytes := [100, 110]  // "dn"

  /** No substrings item without a single part, and no matching rule called "dn" that is not
      preceded by the dn flag. */
  predicate Survives(f: Filter)
    decreases f
  {
    match f
    case And(fs) => forall g <- fs :: Survives(g)
    case Or(fs) => forall g <- fs :: Survives(g)
    case Not(g) => Survives(g)
    case Substrings(_, initial, any, last) => initial != [] || any != [] || last != []
    case Extensible(_, dn, rule, _) => dn || rule != DN_NAME
    case _ => true
  }

  // ------------------------------------------------------------------ escaped values

  lemma {:induction false} EscapedText(v: bytes)
    ensures forall i :: 0 <= i < |Escape(v)| ==> Escape(v)[i] <= 0x7F
    ensures RPAREN !in Escape(v) && STAR !in Escape(v) && LPAREN !in Escape(v)
    ensures Escape(v) == [] <==> v == []
  {
    if v != [] {
      EscapedText(v[1..]);
    }
  }

  lemma HexDigitValue(n: nat)
    requires n < 16
    ensures HexValue(HexDigit(n)) == Some(n)
  {
  }

  /** Every byte string comes back from its escaped form. */
  lemma {:induction false} UnescapeEscape(v: bytes)
    ensures Unescape(Escape(v)) == Text(v)
  {
    hide SequenceWidth, SequenceValue, DecodeRune;
    if v != [] {
      UnescapeEscape(v[1..]);
      var c, s := v[0], Escape(v);
      assert s[0] <= 0x7F;
      AsciiRune(s);
      if MustEscape(c) {
        HexDigitValue(c / 16);
        HexDigitValue(c % 16);
        assert s[3..] == Escape(v[1..]);
      } else {
        assert s[1..] == Escape(v[1..]);
        assert EncodeRune(s[0]) == [c];
      }
      assert [c] + v[1..] == v;
    }
  }

  // ------------------------------------------------------------------ reading an item back

  /** One turn of the loop that only appends the rune it read. */
  lemma ScanAppend(s: bytes, t: bytes, sc: Scan, w: nat, next: Scan)
    requires s != [] && ValidText(s) && s[0] != RPAREN && w == DecodeRune(s).width
    requires Advance(s + t, sc, DecodeRune(s + t)) == (next, w)
    ensures ScanItem(s + t, sc) == Later(w, ScanItem(s[w..] + t, next))
  {
    hide Advance, EncodeRune, SequenceWidth, SequenceValue;
    RuneIsLocal(s, t);
    RuneVersusOctet(s);
    assert (s + t)[w..] == s[w..] + t;
  }

  lemma AttrStep(s: bytes, t: bytes, sc: Scan, w: nat)
    requires sc.state == ReadingAttr && AttrText(s) && s != [] && w == DecodeRune(s).width
    requires HalfOperator(s[|s| - 1]) ==> t == [] || t[0] != EQUAL
    ensures Advance(s + t, sc, DecodeRune(s + t)) == (sc.(attr := sc.attr + s[..w]), w)
  {
    hide EncodeRune, DecodeRune;
    RuneIsLocal(s, t);
    RuneVersusOctet(s);
    assert (s + t)[0] == s[0];
    if |s + t| > 1 {
      assert (s + t)[1] == if |s| > 1 then s[1] else t[0];
    }
  }

  lemma {:induction false} ScanAttr(attr: bytes, t: bytes, sc: Scan)
    requires sc.state == ReadingAttr && AttrText(attr)
    requires attr != [] && HalfOperator(attr[|attr| - 1]) ==> t == [] || t[0] != EQUAL
    ensures ScanItem(attr + t, sc) == Later(|attr|, ScanItem(t, sc.(attr := sc.attr + attr)))
    decreases |attr|
  {
    hide DecodeRune, EncodeRune, Advance, ScanItem;
    if attr == [] {
      assert attr + t == t && sc.attr + attr == sc.attr;
    } else {
      var w := DecodeRune(attr).width;
      var next := sc.(attr := sc.attr + attr[..w]);
      AttrStep(attr, t, sc, w);
      ScanAppend(attr, t, sc, w, next);
      ScanAttr(attr[w..], t, next);
      assert next.attr + attr[w..] == sc.attr + attr;
    }
  }

  lemma RuleStep(s: bytes, t: bytes, sc: Scan, w: nat)
    requires sc.state == ReadingRule && ValidText(s) && NoAssign(s) && s != [] && w == DecodeRune(s).width
    requires s[|s| - 1] == COLON ==> t == [] || t[0] != EQUAL
    ensures Advance(s + t, sc, DecodeRune(s + t)) == (sc.(rule := sc.rule + s[..w]), w)
  {
    hide EncodeRune, DecodeRune;
    RuneIsLocal(s, t);
    RuneVersusOctet(s);
    assert (s + t)[0] == s[0];
    if |s + t| > 1 {
      assert (s + t)[1] == if |s| > 1 then s[1] else t[0];
    }
  }

  lemma {:induction false} ScanRule(rule: bytes, t: bytes, sc: Scan)
    requires sc.state == ReadingRule && ValidText(rule) && RPAREN !in rule && NoAssign(rule)
    requires rule != [] && rule[|rule| - 1] == COLON ==> t == [] || t[0] != EQUAL
    ensures ScanItem(rule + t, sc) == Later(|rule|, ScanItem(t, sc.(rule := sc.rule + rule)))
    decreases |rule|
  {
    hide DecodeRune, EncodeRune, Advance, ScanItem;
    if rule == [] {
      assert rule + t == t && sc.rule + rule == sc.rule;
    } else {
      var w := DecodeRune(rule).width;
      var next := sc.(rule := sc.rule + rule[..w]);
      RuleStep(rule, t, sc, w);
      ScanAppend(rule, t, sc, w, next);
      ScanRule(rule[w..], t, next);
      assert next.rule + rule[w..] == sc.rule + rule;
    }
  }

  lemma ConditionStep(s: bytes, t: bytes, sc: Scan, w: nat)
    requires sc.state == ReadingCondition && ValidText(s) && s != [] && w == DecodeRune(s).width
    ensures Advance(s + t, sc, DecodeRune(s + t)) == (sc.(condition := sc.condition + s[..w]), w)
  {
    hide EncodeRune, DecodeRune;
    RuneIsLocal(s, t);
    RuneVersusOctet(s);
  }

  lemma {:induction false} ScanCondition(c: bytes, t: bytes, sc: Scan)
    requires sc.state == ReadingCondition && ValidText(c) && RPAREN !in c
    ensures ScanItem(c + t, sc) == Later(|c|, ScanItem(t, sc.(condition := sc.condition + c)))
    decreases |c|
  {
    hide DecodeRune, EncodeRune, Advance, ScanItem;
    if c == [] {
      assert c + t == t && sc.condition + c == sc.condition;
    } else {
      var w := DecodeRune(c).width;
      var next := sc.(condition := sc.condition + c[..w]);
      ConditionStep(c, t, sc, w);
      ScanAppend(c, t, sc, w, next);
      ScanCondition(c[w..], t, next);
      assert next.condition + c[w..] == sc.condition + c;
    }
  }

  /** A condition followed by the closing parenthesis ends the loop. */
  lemma ScanToClose(c: bytes, post: bytes, sc: Scan)
    requires sc.state == ReadingCondition && sc.condition == [] && ValidText(c) && RPAREN !in c
    ensures ScanItem(c + ([RPAREN] + post), sc) == Closed(sc.(condition := c), |c|)
  {
    hide Advance, EncodeRune, SequenceWidth, SequenceValue;
    var t := [RPAREN] + post;
    ScanCondition(c, t, sc);
    AsciiRune(t);
    assert [] + c == c;
  }

  /** One turn of the loop on an ASCII octet. */
  lemma ScanStep(t: bytes, sc: Scan, next: Scan, n: nat)
    requires t != [] && t[0] <= 0x7F && t[0] != RPAREN
    requires Advance(t, sc, Rune(t[0], 1)) == (next, n)
    ensures ScanItem(t, sc) == Later(n, ScanItem(t[n..], next))
  {
    AsciiRune(t);
  }

  /** A comparison operator after the attribute. */
  lemma ScanOperator(op: bytes, kind: nat, rest: bytes, sc: Scan)
    requires Comparison(kind) && op == Operator(kind) && sc.state == ReadingAttr
    ensures ScanItem(op + rest, sc)
         == Later(|op|, ScanItem(rest, sc.(kind := Some(kind), state := ReadingCondition)))
  {
    var t := op + rest;
    var next := sc.(kind := Some(kind), state := ReadingCondition);
    assert t[0] == op[0] && (|op| == 2 ==> t[1] == op[1]);
    assert AsciiRuneOf(t) by { AsciiRune(t); }
    assert t[..|op|] == op;
    assert Advance(t, sc, Rune(t[0], 1)) == (next, |op|);
    assert t[|op|..] == rest;
    ScanStep(t, sc, next, |op|);
  }

  predicate AsciiRuneOf(t: bytes)
    requires t != []
  {
    DecodeRune(t) == Rune(t[0], 1)
  }

  /** Text that opens like an item goes to the character loop. */
  lemma DispatchItem(attr: bytes, t: bytes)
    requires AttrText(attr) && (attr != [] ==> !OpensSpecial(attr[0]))
    requires t != [] && t[0] <= 0x7F && !OpensSpecial(t[0])
    ensures CompileAt(attr + t) == CompileItem(attr + t)
  {
    hide CompileItem, CompileSet, SequenceWidth, SequenceValue, EncodeRune;
    if attr == [] {
      assert attr + t == t;
      AsciiRune(t);
    } else {
      RuneIsLocal(attr, t);
      RuneVersusOctet(attr);
    }
  }

  /** attribute, operator, condition, closing parenthesis. */
  lemma ScanComparison(kind: nat, attr: bytes, c: bytes, post: bytes)
    requires Comparison(kind) && AttrOk(attr, kind == FILTER_EQUALITY) && ValidText(c) && RPAREN !in c
    ensures ScanItem(attr + (Operator(kind) + (c + ([RPAREN] + post))), START)
         == Closed(Scan(ReadingCondition, Some(kind), attr, false, [], c), |attr| + |Operator(kind)| + |c|)
  {
    hide ScanItem, ValidText;
    var op := Operator(kind);
    var rest := c + ([RPAREN] + post);
    var named := START.(attr := attr);
    assert [] + attr == attr;
    assert (op + rest)[0] == op[0];
    ScanAttr(attr, op + rest, START);
    ScanOperator(op, kind, rest, named);
    ScanToClose(c, post, named.(kind := Some(kind), state := ReadingCondition));
  }

  lemma CompileClosed(t: bytes, kind: nat, sc: Scan, n: nat, p: Packet)
    requires ScanItem(t, START) == Closed(sc, n) && sc.kind == Some(kind) && Build(kind, sc) == Whole(p)
    ensures CompileItem(t) == Parsed(p, n + 1)
  {
    hide ScanItem, Build;
  }

  lemma EscapedCondition(v: bytes)
    ensures ValidText(Escape(v)) && RPAREN !in Escape(v) && STAR !in Escape(v)
  {
    EscapedText(v);
    AsciiIsValid(Escape(v));
  }

  lemma CompileCompare(f: Filter, post: bytes)
    requires f.Compare? && Compilable(f)
    ensures CompileAt(PrintBody(f) + ([RPAREN] + post)) == Parsed(ToPacket(f), |PrintBody(f)| + 1)
  {
    hide ScanItem, ValidText, CompileAt, CompileItem, Escape, Unescape, AppendChild, AddParts, Split;
    var c, op := Escape(f.value), Operator(f.kind);
    EscapedCondition(f.value);
    UnescapeEscape(f.value);
    var t := op + (c + ([RPAREN] + post));
    assert PrintBody(f) + ([RPAREN] + post) == f.attr + t;
    DispatchItem(f.attr, t);
    ScanComparison(f.kind, f.attr, c, post);
    var sc := Scan(ReadingCondition, Some(f.kind), f.attr, false, [], c);
    assert c != [STAR] by { assert STAR in [STAR]; }
    CompileClosed(f.attr + t, f.kind, sc, |f.attr| + |op| + |c|, ToPacket(f));
  }

  lemma CompilePresent(f: Filter, post: bytes)
    requires f.Present? && Compilable(f)
    ensures CompileAt(PrintBody(f) + ([RPAREN] + post)) == Parsed(ToPacket(f), |PrintBody(f)| + 1)
  {
    hide ScanItem, CompileAt, CompileItem, Unescape, AppendChild, AddParts, Split;
    var c, op: bytes := [STAR], [EQUAL];
    AsciiIsValid(c);
    var t := op + (c + ([RPAREN] + post));
    assert PrintBody(f) + ([RPAREN] + post) == f.attr + t;
    DispatchItem(f.attr, t);
    ScanComparison(FILTER_EQUALITY, f.attr, c, post);
    var sc := Scan(ReadingCondition, Some(FILTER_EQUALITY), f.attr, false, [], c);
    CompileClosed(f.attr + t, FILTER_EQUALITY, sc, |f.attr| + 2, ToPacket(f));
  }

  // ------------------------------------------------------------------ substrings

  function EscapeEach(any: seq<bytes>): seq<bytes>
  {
    if any == [] then [] else [Escape(any[0])] + EscapeEach(any[1..])
  }

  lemma {:induction false} StarredText(any: seq<bytes>, last: bytes)
    ensures var s := Starred(any) + Escape(last);
            (forall i :: 0 <= i < |s| ==> s[i] <= 0x7F) && RPAREN !in s
  {
    EscapedText(last);
    if any != [] {
      EscapedText(any[0]);
      StarredText(any[1..], last);
      assert Starred(any) + Escape(last) == Escape(any[0]) + [STAR] + (Starred(any[1..]) + Escape(last));
    }
  }

  lemma SplitAtStar(a: bytes, rest: bytes)
    requires STAR !in a
    ensures Split(a + [STAR] + rest) == [a] + Split(rest)
  {
    hide IndexByte;
    var s := a + [STAR] + rest;
    IndexByteUnique(a, STAR, rest);
    assert s[..|a|] == a && s[|a| + 1..] == rest;
  }

  lemma {:induction false} SplitStarred(any: seq<bytes>, last: bytes)
    ensures Split(Starred(any) + Escape(last)) == EscapeEach(any) + [Escape(last)]
  {
    hide Escape, IndexByte;
    var s := Starred(any) + Escape(last);
    if any == [] {
      EscapedText(last);
      assert s == Escape(last);
      assert STAR !in s;
    } else {
      var a, rest := Escape(any[0]), Starred(any[1..]) + Escape(last);
      EscapedText(any[0]);
      assert s == a + [STAR] + rest;
      SplitAtStar(a, rest);
      SplitStarred(any[1..], last);
      assert [a] + (EscapeEach(any[1..]) + [Escape(last)]) == EscapeEach(any) + [Escape(last)];
    }
  }

  lemma SplitSubstrings(initial: bytes, any: seq<bytes>, last: bytes)
    ensures Split(SubstringsText(initial, any, last)) == [Escape(initial)] + (EscapeEach(any) + [Escape(last)])
  {
    hide Escape, Split;
    var a, rest := Escape(initial), Starred(any) + Escape(last);
    EscapedText(initial);
    assert SubstringsText(initial, any, last) == a + [STAR] + rest;
    SplitAtStar(a, rest);
    SplitStarred(any, last);
  }

  /** The part loop from the first middle part on. */
  lemma {:induction false} AddMiddleParts(parts: seq<bytes>, i: nat, any: seq<bytes>, last: bytes, sequence: Packet)
    requires 1 <= i <= |parts| && parts[i..] == EscapeEach(any) + [Escape(last)] && [] !in any
    ensures AddParts(parts, i, sequence)
         == Whole(AppendAll(sequence, AnyPackets(any) + Optional(SUBSTRINGS_FINAL, last)))
    decreases |any|
  {
    hide Escape, Unescape, AppendChild;
    assert |parts[i..]| == |parts| - i;
    if any == [] {
      assert parts[i] == parts[i..][0] == Escape(last) && i == |parts| - 1;
      EscapedText(last);
      UnescapeEscape(last);
      assert AnyPackets(any) + Optional(SUBSTRINGS_FINAL, last) == Optional(SUBSTRINGS_FINAL, last);
      assert AddParts(parts, i + 1, sequence) == Whole(sequence);
    } else {
      EscapeEachLength(any);
      assert parts[i] == parts[i..][0] == Escape(any[0]) && i < |parts| - 1;
      assert any[0] in any;
      EscapedText(any[0]);
      UnescapeEscape(any[0]);
      var c := NewString(Context, SUBSTRINGS_ANY, any[0]);
      assert parts[i + 1..] == parts[i..][1..] == EscapeEach(any[1..]) + [Escape(last)];
      AddMiddleParts(parts, i + 1, any[1..], last, AppendChild(sequence, c));
      var cs := AnyPackets(any[1..]) + Optional(SUBSTRINGS_FINAL, last);
      assert AnyPackets(any) + Optional(SUBSTRINGS_FINAL, last) == [c] + cs;
      assert ([c] + cs)[1..] == cs;
    }
  }

  lemma {:induction false} EscapeEachLength(any: seq<bytes>)
    ensures |EscapeEach(any)| == |any|
  {
    if any != [] { EscapeEachLength(any[1..]); }
  }

  lemma AddAllParts(initial: bytes, any: seq<bytes>, last: bytes)
    requires [] !in any
    ensures AddParts([Escape(initial)] + (EscapeEach(any) + [Escape(last)]), 0, EmptySequence())
         == Whole(AppendAll(EmptySequence(), PartPackets(initial, any, last)))
  {
    hide Escape, Unescape, AppendChild;
    var parts := [Escape(initial)] + (EscapeEach(any) + [Escape(last)]);
    var cs := AnyPackets(any) + Optional(SUBSTRINGS_FINAL, last);
    assert parts[1..] == EscapeEach(any) + [Escape(last)];
    EscapedText(initial);
    UnescapeEscape(initial);
    if initial == [] {
      AddMiddleParts(parts, 1, any, last, EmptySequence());
      assert PartPackets(initial, any, last) == cs;
    } else {
      var c := NewString(Context, SUBSTRINGS_INITIAL, initial);
      AddMiddleParts(parts, 1, any, last, AppendChild(EmptySequence(), c));
      assert PartPackets(initial, any, last) == [c] + cs;
      assert ([c] + cs)[1..] == cs;
    }
  }

  lemma SubstringsCondition(initial: bytes, any: seq<bytes>, last: bytes)
    ensures var c := SubstringsText(initial, any, last);
            ValidText(c) && RPAREN !in c && STAR in c && (initial != [] || any != [] || last != [] ==> c != [STAR])
  {
    var c := SubstringsText(initial, any, last);
    EscapedText(initial);
    EscapedText(last);
    StarredText(any, last);
    AsciiIsValid(c);
    assert c[|Escape(initial)|] == STAR;
    assert |c| == |Escape(initial)| + 1 + |Starred(any)| + |Escape(last)|;
  }

  lemma CompileSubstrings(f: Filter, post: bytes)
    requires f.Substrings? && Compilable(f) && Survives(f)
    ensures CompileAt(PrintBody(f) + ([RPAREN] + post)) == Parsed(ToPacket(f), |PrintBody(f)| + 1)
  {
    hide ScanItem, ValidText, CompileAt, CompileItem, Escape, Unescape, AddParts, Split, SubstringsText, Bytes;
    var c, op := SubstringsText(f.initial, f.any, f.last), [EQUAL];
    SubstringsCondition(f.initial, f.any, f.last);
    var t := op + (c + ([RPAREN] + post));
    assert PrintBody(f) + ([RPAREN] + post) == f.attr + t;
    DispatchItem(f.attr, t);
    ScanComparison(FILTER_EQUALITY, f.attr, c, post);
    SplitSubstrings(f.initial, f.any, f.last);
    AddAllParts(f.initial, f.any, f.last);
    var sc := Scan(ReadingCondition, Some(FILTER_EQUALITY), f.attr, false, [], c);
    CompileClosed(f.attr + t, FILTER_EQUALITY, sc, |f.attr| + 1 + |c|, ToPacket(f));
  }

  // ------------------------------------------------------------------ extensible matches

  lemma ScanRuleAndAssign(rule: bytes, dn: bool, rest: bytes, sc: Scan)
    requires RuleOk(rule, dn) && sc.state == ReadingRule && sc.rule == []
    ensures ScanItem(rule + (ASSIGN + rest), sc)
         == Later(|rule| + 2, ScanItem(rest, sc.(rule := rule, state := ReadingCondition)))
  {
    hide ScanItem, ValidText;
    var t := ASSIGN + rest;
    assert t[0] == COLON;
    ScanRule(rule, t, sc);
    assert [] + rule == rule;
    var ruled := sc.(rule := rule);
    assert t[..2] == ASSIGN && t[2..] == rest;
    assert ASSIGN <= t;
    ScanStep(t, ruled, ruled.(state := ReadingCondition), 2);
  }

  /** What follows the attribute of an extensible match, up to its value. */
  function Suffix(dn: bool, rule: bytes): bytes
  {
    (if dn then DN else []) + ((if rule != [] then [COLON] + rule else []) + ASSIGN)
  }

  lemma ScanSuffix(dn: bool, rule: bytes, rest: bytes, sc: Scan)
    requires RuleOk(rule, dn) && (dn || rule != DN_NAME)
    requires sc.state == ReadingAttr && sc.rule == [] && !sc.dn
    ensures ScanItem(Suffix(dn, rule) + rest, sc)
         == Later(|Suffix(dn, rule)|,
                  ScanItem(rest, Scan(ReadingCondition, Some(FILTER_EXTENSIBLE), sc.attr, dn, rule, sc.condition)))
  {
    hide ScanItem, RuleOk;
    var t := Suffix(dn, rule) + rest;
    if rule == [] {
      assert t == (if dn then DN_ASSIGN else ASSIGN) + rest;
      ScanPlainSuffix(dn, rest, sc);
    } else {
      var more := rule + (ASSIGN + rest);
      var ruling := sc.(kind := Some(FILTER_EXTENSIBLE), dn := dn, state := ReadingRule);
      assert t == (if dn then DN_COLON else [COLON]) + more;
      ScanRuleStart(dn, rule, rest, sc);
      ScanRuleAndAssign(rule, dn, rest, ruling);
    }
  }

  lemma ScanPlainSuffix(dn: bool, rest: bytes, sc: Scan)
    requires sc.state == ReadingAttr && !sc.dn
    ensures var s := if dn then DN_ASSIGN else ASSIGN;
            ScanItem(s + rest, sc) == Later(|s|,
              ScanItem(rest, sc.(kind := Some(FILTER_EXTENSIBLE), dn := dn, state := ReadingCondition)))
  {
    hide ScanItem;
    var s := if dn then DN_ASSIGN else ASSIGN;
    var t := s + rest;
    assert t[..|s|] == s && t[|s|..] == rest;
    assert t[0] == s[0] && t[1] == s[1];
    ScanStep(t, sc, sc.(kind := Some(FILTER_EXTENSIBLE), dn := dn, state := ReadingCondition), |s|);
  }

  lemma ScanRuleStart(dn: bool, rule: bytes, rest: bytes, sc: Scan)
    requires RuleOk(rule, dn) && (dn || rule != DN_NAME)
    requires rule != [] && sc.state == ReadingAttr && !sc.dn
    ensures var s, more := if dn then DN_COLON else [COLON], rule + (ASSIGN + rest);
            ScanItem(s + more, sc) == Later(|s|,
              ScanItem(more, sc.(kind := Some(FILTER_EXTENSIBLE), dn := dn, state := ReadingRule)))
  {
    hide ScanItem, ValidText, NoAssign;
    var s, more := if dn then DN_COLON else [COLON], rule + (ASSIGN + rest);
    var t := s + more;
    assert t[..|s|] == s && t[|s|..] == more;
    assert t[|s|] == rule[0] && t[0] == COLON;
    if dn {
      assert t[4] != DN_ASSIGN[4];
      assert DN_COLON <= t;
    } else {
      NotDnRule(rule, rest, t);
    }
    ScanStep(t, sc, sc.(kind := Some(FILTER_EXTENSIBLE), dn := dn, state := ReadingRule), |s|);
  }

  lemma NotDnRule(rule: bytes, rest: bytes, t: bytes)
    requires rule != [] && !(DN_RULE <= rule) && rule != DN_NAME && t == [COLON] + (rule + (ASSIGN + rest))
    ensures !(DN_COLON <= t) && !(DN_ASSIGN <= t)
  {
    assert forall k :: 0 <= k < |rule| ==> t[k + 1] == rule[k];
    if |rule| >= 3 {
      assert rule[..3] == [t[1], t[2], t[3]];
    } else if |rule| == 2 {
      assert rule == [t[1], t[2]];
    } else {
      assert t[2] == ASSIGN[0] == COLON;
    }
    if |t| >= 4 {
      var b, c, d := t[1], t[2], t[3];
      assert DN_COLON <= t ==> [b, c, d] == DN_RULE;
    }
    assert DN_ASSIGN <= t ==> DN_COLON <= t;
  }

  lemma CompileExtensible(f: Filter, post: bytes)
    requires f.Extensible? && Compilable(f) && Survives(f)
    ensures CompileAt(PrintBody(f) + ([RPAREN] + post)) == Parsed(ToPacket(f), |PrintBody(f)| + 1)
  {
    hide ScanItem, ValidText, CompileAt, CompileItem, Escape, Unescape, Suffix, Build, RuleOk;
    var c := Escape(f.value);
    EscapedCondition(f.value);
    var rest := c + ([RPAREN] + post);
    var s := Suffix(f.dn, f.rule);
    ExtensibleText(f, post);
    DispatchItem(f.attr, s + rest);
    assert [] + f.attr == f.attr;
    var named := START.(attr := f.attr);
    ScanAttr(f.attr, s + rest, START);
    ScanSuffix(f.dn, f.rule, rest, named);
    var sc := Scan(ReadingCondition, Some(FILTER_EXTENSIBLE), f.attr, f.dn, f.rule, []);
    ScanToClose(c, post, sc);
    UnescapeEscape(f.value);
    BuildExtensible(f, c);
    CompileClosed(f.attr + (s + rest), FILTER_EXTENSIBLE, sc.(condition := c), |f.attr| + |s| + |c|, ToPacket(f));
  }

  lemma ExtensibleText(f: Filter, post: bytes)
    requires f.Extensible?
    ensures var s, c := Suffix(f.dn, f.rule), Escape(f.value);
            && s != [] && (s + (c + ([RPAREN] + post)))[0] == COLON
            && PrintBody(f) + ([RPAREN] + post) == f.attr + (s + (c + ([RPAREN] + post)))
            && |PrintBody(f)| == |f.attr| + |s| + |c|
  {
    hide Escape;
  }

  lemma BuildExtensible(f: Filter, c: bytes)
    requires f.Extensible? && Unescape(c) == Text(f.value)
    ensures Build(FILTER_EXTENSIBLE,
                  Scan(ReadingCondition, Some(FILTER_EXTENSIBLE), f.attr, f.dn, f.rule, c))
         == Whole(ToPacket(f))
  {
    hide Unescape, AppendChild;
    var p := Shell(FILTER_EXTENSIBLE);
    var a, b := Optional(RULE_ID, f.rule), Optional(RULE_TYPE, f.attr);
    var c, d := [NewString(Context, RULE_VALUE, f.value)], if f.dn then [NewBoolean(RULE_DN_ATTRIBUTES, true)] else [];
    AppendAllConcat(p, a + b + c, d);
    AppendAllConcat(p, a + b, c);
    AppendAllConcat(p, a, b);
    AppendOptional(p, RULE_ID, f.rule);
    AppendOptional(AppendAll(p, a), RULE_TYPE, f.attr);
    AppendOne(AppendAll(p, a + b), c[0]);
    if f.dn {
      AppendOne(AppendAll(p, a + b + c), d[0]);
    }
  }

  lemma {:induction false} AppendAllConcat(p: Packet, a: seq<Packet>, b: seq<Packet>)
    ensures AppendAll(p, a + b) == AppendAll(AppendAll(p, a), b)
    decreases |a|
  {
    hide AppendChild;
    if a == [] {
      assert a + b == b;
    } else {
      assert (a + b)[0] == a[0] && (a + b)[1..] == a[1..] + b;
      AppendAllConcat(AppendChild(p, a[0]), a[1..], b);
    }
  }

  lemma AppendOne(p: Packet, c: Packet)
    ensures AppendAll(p, [c]) == AppendChild(p, c)
  {
    hide AppendChild;
    assert [c][1..] == [];
    assert AppendAll(AppendChild(p, c), []) == AppendChild(p, c);
  }

  lemma AppendOptional(p: Packet, tag: nat, s: bytes)
    ensures AppendAll(p, Optional(tag, s)) == WithOptional(p, tag, s)
  {
    if s != [] {
      AppendOne(p, NewString(Context, tag, s));
    }
  }

  // ------------------------------------------------------------------ printing and compiling back

  /** Compiling the text between the parentheses of a printed filter, whatever follows it. */
  lemma {:induction false} CompileBody(f: Filter, post: bytes)
    requires Compilable(f) && Survives(f)
    ensures CompileAt(PrintBody(f) + ([RPAREN] + post)) == Parsed(ToPacket(f), |PrintBody(f)| + 1)
    decreases f, 1
  {
    hide CompileItem, DecodeRune, SequenceWidth, SequenceValue, AppendChild, CompileSet, AppendAll;
    var t := PrintBody(f) + ([RPAREN] + post);
    match f {
      case And(fs) =>
        AsciiRune(t);
        assert t[1..] == PrintAll(fs) + ([RPAREN] + post);
        CompileAll(fs, Shell(FILTER_AND), 1, post);
      case Or(fs) =>
        AsciiRune(t);
        assert t[1..] == PrintAll(fs) + ([RPAREN] + post);
        CompileAll(fs, Shell(FILTER_OR), 1, post);
      case Not(g) =>
        AsciiRune(t);
        var inner := PrintBody(g) + ([RPAREN] + ([RPAREN] + post));
        assert Print(g) == [LPAREN] + PrintBody(g) + [RPAREN];
        assert t[1..] == [LPAREN] + inner;
        AsciiRune(t[1..]);
        assert t[1..][1..] == inner;
        CompileBody(g, [RPAREN] + post);
      case Compare(_, _, _) => CompileCompare(f, post);
      case Present(_) => CompilePresent(f, post);
      case Substrings(_, _, _, _) => CompileSubstrings(f, post);
      case Extensible(_, _, _, _) => CompileExtensible(f, post);
    }
  }

  /** One turn of compileFilterSet. */
  lemma SetTurn(t: bytes, parent: Packet, taken: nat, child: Packet, n: nat, tail: bytes)
    requires t != [] && t[0] == LPAREN && CompileAt(t[1..]) == Parsed(child, n)
    requires n + 1 <= |t| && t[n + 1..] == tail
    ensures CompileSet(t, parent, taken) == CompileSet(tail, AppendChild(parent, child), taken + n + 1)
  {
    hide CompileAt, AppendChild;
  }

  lemma {:induction false} CompileAll(fs: seq<Filter>, parent: Packet, taken: nat, post: bytes)
    requires forall g <- fs :: Compilable(g) && Survives(g)
    ensures CompileSet(PrintAll(fs) + ([RPAREN] + post), parent, taken)
         == Parsed(AppendAll(parent, ToPackets(fs)), taken + |PrintAll(fs)| + 1)
    decreases fs, 0
  {
    hide CompileAt, PrintBody, ToPacket, AppendChild, Compilable, Survives, CompileSet, AppendAll, PrintAll;
    if fs == [] {
      CompileNone(parent, taken, post);
    } else {
      var t := PrintAll(fs) + ([RPAREN] + post);
      var g, rest := fs[0], PrintAll(fs[1..]) + ([RPAREN] + post);
      var n := |PrintBody(g)| + 1;
      PrintAllText(fs, post);
      assert t[1..] == PrintBody(g) + ([RPAREN] + rest) && t[n + 1..] == rest;
      CompileBody(g, rest);
      SetTurn(t, parent, taken, ToPacket(g), n, rest);
      CompileAll(fs[1..], AppendChild(parent, ToPacket(g)), taken + n + 1, post);
      assert ToPackets(fs) == [ToPacket(g)] + ToPackets(fs[1..]);
      AppendAllTurn(parent, ToPacket(g), ToPackets(fs[1..]));
    }
  }

  lemma AppendAllTurn(parent: Packet, child: Packet, rest: seq<Packet>)
    ensures AppendAll(parent, [child] + rest) == AppendAll(AppendChild(parent, child), rest)
  {
    hide AppendChild;
    assert ([child] + rest)[1..] == rest;
  }

  lemma CompileNone(parent: Packet, taken: nat, post: bytes)
    ensures PrintAll([]) == []
    ensures CompileSet(PrintAll([]) + ([RPAREN] + post), parent, taken)
         == Parsed(AppendAll(parent, ToPackets([])), taken + 1)
  {
    hide CompileAt, AppendChild;
    assert (PrintAll([]) + ([RPAREN] + post))[0] == RPAREN;
  }

  lemma PrintAllText(fs: seq<Filter>, post: bytes)
    requires fs != []
    ensures PrintAll(fs) + ([RPAREN] + post)
         == [LPAREN] + (PrintBody(fs[0]) + ([RPAREN] + (PrintAll(fs[1..]) + ([RPAREN] + post))))
    ensures |PrintAll(fs)| == |PrintBody(fs[0])| + 2 + |PrintAll(fs[1..])|
  {
    hide PrintBody;
    assert Print(fs[0]) == [LPAREN] + PrintBody(fs[0]) + [RPAREN];
  }

  /** CompileFilter on a printed filter yields its packet. */
  lemma CompilePrinted(f: Filter)
    requires Compilable(f) && Survives(f)
    ensures CompileText(Print(f)) == Compiled(ToPacket(f))
  {
    hide CompileAt, PrintBody, ToPacket;
    CompileBody(f, []);
    assert Print(f)[1..] == PrintBody(f) + ([RPAREN] + []);
  }

  // ------------------------------------------------------------------ running past the end

  /** The loop stops at a parenthesis of the text. */
  lemma {:induction false} ClosedWithin(t: bytes, sc: Scan)
    ensures ScanItem(t, sc).Closed? ==> ScanItem(t, sc).taken < |t| && t[ScanItem(t, sc).taken] == RPAREN
    decreases |t|
  {
    hide DecodeRune, Advance;
    if t != [] && DecodeRune(t).value == RPAREN {
      RuneVersusOctet(t);
    } else if t != [] && DecodeRune(t).value != RUNE_ERROR {
      var (next, n) := Advance(t, sc, DecodeRune(t));
      ClosedWithin(t[n..], next);
    }
  }

  lemma ItemWithin(t: bytes)
    ensures CompileItem(t).Parsed? ==> CompileItem(t).taken <= |t|
  {
    hide ScanItem, Build;
    ClosedWithin(t, START);
  }

  // What the compiler takes does not depend on what follows it.

  lemma RuneBeforeClose(s: bytes, u: bytes)
    requires RPAREN in s
    ensures DecodeRune(s + u) == DecodeRune(s)
  {
    hide SequenceValue;
    var k :| 0 <= k < |s| && s[k] == RPAREN;
    assert forall i :: 0 <= i < |s| ==> (s + u)[i] == s[i];
    assert !Tail(s[k]);
    assert SequenceWidth(s + u) == SequenceWidth(s);
    if SequenceWidth(s) > 0 {
      SameValue(s, u, SequenceWidth(s));
    }
  }

  lemma SameValue(s: bytes, u: bytes, w: nat)
    requires 1 <= w <= 4 && w <= |s|
    ensures SequenceValue(s + u, w) == SequenceValue(s, w)
  {
  }

  lemma PrefixBeforeClose(op: bytes, s: bytes, u: bytes)
    requires RPAREN in s && RPAREN !in op
    ensures op <= s + u <==> op <= s
  {
    var k :| 0 <= k < |s| && s[k] == RPAREN;
    assert (s + u)[k] == RPAREN;
    if op <= s + u {
      assert forall i :: 0 <= i < |op| ==> op[i] == (s + u)[i];
      assert |op| <= k;
      assert (s + u)[..|op|] == s[..|op|];
    }
    if op <= s {
      assert (s + u)[..|op|] == s[..|op|];
    }
  }

  lemma AdvanceBeforeClose(s: bytes, u: bytes, sc: Scan, r: Rune)
    requires RPAREN in s && r == DecodeRune(s) && r == DecodeRune(s + u) && r.value != RUNE_ERROR
    ensures Advance(s + u, sc, r) == Advance(s, sc, r)
  {
    hide DecodeRune, EncodeRune;
    PrefixBeforeClose(DN_ASSIGN, s, u);
    PrefixBeforeClose(DN_COLON, s, u);
    PrefixBeforeClose(ASSIGN, s, u);
    PrefixBeforeClose(AT_LEAST, s, u);
    PrefixBeforeClose(AT_MOST, s, u);
    PrefixBeforeClose(APPROX, s, u);
  }

  lemma {:induction false} ScanIsLocal(s: bytes, u: bytes, sc: Scan)
    requires ScanItem(s, sc).Closed? || (ScanItem(s + u, sc).Closed? && ScanItem(s + u, sc).taken < |s|)
    ensures ScanItem(s + u, sc) == ScanItem(s, sc)
    decreases |s|
  {
    hide DecodeRune, Advance;
    ClosedWithin(s, sc);
    ClosedWithin(s + u, sc);
    if ScanItem(s, sc).Closed? {
      assert RPAREN in s;
    } else {
      assert (s + u)[ScanItem(s + u, sc).taken] == s[ScanItem(s + u, sc).taken];
      assert RPAREN in s;
    }
    RuneBeforeClose(s, u);
    var r := DecodeRune(s);
    if r.value != RPAREN && r.value != RUNE_ERROR {
      AdvanceBeforeClose(s, u, sc, r);
      var (next, n) := Advance(s, sc, r);
      assert (s + u)[n..] == s[n..] + u;
      ScanIsLocal(s[n..], u, next);
    }
  }

  lemma ItemIsLocal(s: bytes, u: bytes)
    requires (CompileItem(s).Parsed? && CompileItem(s).taken <= |s|) || (CompileItem(s + u).Parsed? && CompileItem(s + u).taken <= |s|)
    ensures CompileItem(s + u) == CompileItem(s)
  {
    hide ScanItem, Build;
    ScanIsLocal(s, u, START);
  }

  predicate Stops(o: Outcome, n: nat)
  {
    o.Parsed? && o.taken <= n
  }

  lemma {:induction false} CompileIsLocal(s: bytes, u: bytes)
    requires Stops(CompileAt(s), |s|) || Stops(CompileAt(s + u), |s|)
    ensures CompileAt(s + u) == CompileAt(s)
    decreases |s|, 1
  {
    hide CompileItem, SequenceWidth, SequenceValue, AppendChild;
    if s == [] {
      return;
    }
    assert (s + u)[0] == s[0] && (s + u)[1..] == s[1..] + u;
    if s[0] <= 0x7F {
      AsciiRune(s);
      AsciiRune(s + u);
      if s[0] == LPAREN || s[0] == EXCLAMATION {
        CompileIsLocal(s[1..], u);
      } else if s[0] == AMPERSAND || s[0] == BAR {
        SetIsLocal(s[1..], u, Shell(if s[0] == AMPERSAND then FILTER_AND else FILTER_OR), 1);
      } else {
        ItemIsLocal(s, u);
      }
    } else {
      WideIsItem(s);
      WideIsItem(s + u);
      ItemIsLocal(s, u);
    }
  }

  /** A text that starts with no ASCII character is an item, or fails as one would. */
  lemma WideIsItem(t: bytes)
    requires t != [] && t[0] > 0x7F
    ensures CompileAt(t) == CompileItem(t)
  {
    hide SequenceWidth, SequenceValue, EncodeRune;
    if DecodeRune(t).value != RUNE_ERROR {
      RuneVersusOctet(t);
    }
  }

  lemma {:induction false} SetIsLocal(s: bytes, u: bytes, parent: Packet, taken: nat)
    requires Stops(CompileSet(s, parent, taken), taken + |s|) || Stops(CompileSet(s + u, parent, taken), taken + |s|)
    ensures CompileSet(s + u, parent, taken) == CompileSet(s, parent, taken)
    decreases |s|, 0
  {
    hide CompileAt, AppendChild;
    if s == [] {
      return;
    }
    assert (s + u)[0] == s[0] && (s + u)[1..] == s[1..] + u;
    if s[0] == LPAREN {
      CompileIsLocal(s[1..], u);
      var child := CompileAt(s[1..]);
      assert (s + u)[child.taken + 1..] == s[child.taken + 1..] + u;
      SetIsLocal(s[child.taken + 1..], u, AppendChild(parent, child.packet), taken + child.taken + 1);
    }
  }

  predicate Accepted(text: bytes)
  {
    CompileText(text).Compiled?
  }

  /** Where the first filter of a text ends: the compiler takes exactly the one prefix that is accepted. */
  lemma FirstFilterEnds(t: bytes, i: nat)
    requires t != [] && t[0] == LPAREN && 0 < i <= |t|
    ensures Accepted(t[..i]) <==> CompileAt(t[1..]).Parsed? && CompileAt(t[1..]).taken + 1 == i
  {
    hide CompileAt;
    var s, u := t[1..i], t[i..];
    assert t[..i][1..] == s && t[1..] == s + u;
    if Stops(CompileAt(s), |s|) || Stops(CompileAt(s + u), |s|) {
      CompileIsLocal(s, u);
    }
  }

  /** An accepted filter ends the text, last in all that it is part of, while the parenthesis around it is
      still open. */
  ghost predicate Unclosed(t: bytes)
    decreases |t|, 1
  {
    && t != []
    && (|| (t[0] == LPAREN && (Accepted(t) || Unclosed(t[1..])))
        || (t[0] == EXCLAMATION && Unclosed(t[1..]))
        || ((t[0] == AMPERSAND || t[0] == BAR) && UnclosedSet(t[1..])))
  }

  /** The same of the last child of a set, after accepted filters. */
  ghost predicate UnclosedSet(t: bytes)
    decreases |t|, 0
  {
    && t != [] && t[0] == LPAREN
    && (Unclosed(t[1..]) || exists i :: 0 < i <= |t| && Accepted(t[..i]) && UnclosedSet(t[i..]))
  }

  lemma {:induction false} RunsPastExactly(t: bytes)
    ensures CompileAt(t).Parsed? && CompileAt(t).taken > |t| <==> Unclosed(t)
    decreases |t|, 1
  {
    hide CompileItem, SequenceWidth, SequenceValue, AppendChild;
    if t == [] {
      return;
    }
    var r := DecodeRune(t);
    if r.value == RUNE_ERROR {
      SpecialRune(t);
    } else {
      RuneVersusOctet(t);
      if r.value == LPAREN || r.value == EXCLAMATION {
        RunsPastExactly(t[1..]);
        assert Accepted(t) <==> t[0] == LPAREN && CompileAt(t[1..]).Parsed? && CompileAt(t[1..]).taken == |t| - 1;
      } else if r.value == AMPERSAND || r.value == BAR {
        SetRunsPastExactly(t[1..], Shell(if r.value == AMPERSAND then FILTER_AND else FILTER_OR), 1);
      } else {
        ItemWithin(t);
      }
    }
  }

  lemma SpecialRune(t: bytes)
    requires t != [] && DecodeRune(t).value == RUNE_ERROR
    ensures t[0] != LPAREN && t[0] != EXCLAMATION && t[0] != AMPERSAND && t[0] != BAR
  {
    if t[0] <= 0x7F {
      AsciiRune(t);
    }
  }

  lemma {:induction false} SetRunsPastExactly(t: bytes, parent: Packet, taken: nat)
    ensures CompileSet(t, parent, taken).Parsed? && CompileSet(t, parent, taken).taken > taken + |t| <==> UnclosedSet(t)
    decreases |t|, 0
  {
    hide CompileAt, AppendChild;
    if t != [] && t[0] == LPAREN {
      RunsPastExactly(t[1..]);
      var child := CompileAt(t[1..]);
      forall i | 0 < i <= |t|
        ensures Accepted(t[..i]) <==> child.Parsed? && child.taken + 1 == i
      {
        FirstFilterEnds(t, i);
      }
      if child.Parsed? && child.taken < |t| {
        SetRunsPastExactly(t[child.taken + 1..], AppendChild(parent, child.packet), taken + child.taken + 1);
        assert Accepted(t[..child.taken + 1]);
      }
    }
  }

  /** CompileFilter panics on a slice of its own error message exactly when such a group is left open. */
  lemma OutOfRangeExactly(filter: bytes)
    ensures CompileText(filter) == OutOfRange <==> filter != [] && filter[0] == LPAREN && Unclosed(filter[1..])
  {
    hide CompileAt, Unclosed;
    if filter != [] {
      RunsPastExactly(filter[1..]);
    }
  }

  lemma OpenGroup(t: bytes)
    requires Accepted(t)
    ensures Unclosed(t)
  {
  }

  /** Any printed filter after one more parenthesis is such a text. */
  lemma OneParenthesisMore(f: Filter)
    requires Compilable(f) && Survives(f)
    ensures CompileText([LPAREN] + Print(f)) == OutOfRange
  {
    hide CompileText, PrintBody, ToPacket, Compilable, Survives, CompileAt;
    CompileBody(f, []);
    var t := [LPAREN] + Print(f);
    assert t[1..] == Print(f);
    assert Print(f)[1..] == PrintBody(f) + ([RPAREN] + []);
    CompilePrinted(f);
    OpenGroup(Print(f));
    OutOfRangeExactly(t);
  }
}
