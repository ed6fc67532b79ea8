/**
 Every packet the filter compiler accepts is a filter of RFC 4515, decompiling it always
 succeeds, and compiling the result gives the same packet exactly for the filters that survive.
 Through the BER codec the packet keeps everything but the Go value of dnAttributes.
 */
module LdapNormalForm {
  import opened Base
  import opened Utf8
  import opened BerPrimitives
  import opened BerTree
  import opened LdapFilter
  import opened LdapRoundTrip

  // ------------------------------------------------------------------ decompiling packets of filters

  /** The filter whose text the decompiler prints for f: an item without parts prints as an
      empty equality, and a rule called "dn" as the dn flag. */
  function Collapse(f: Filter): Filter
    decreases f, 1
  {
    match f
    case And(fs) => And(CollapseAll(fs))
    case Or(fs) => Or(CollapseAll(fs))
    case Not(g) => Not(Collapse(g))
    case Substrings(attr, initial, any, last) =>
      if initial == [] && any == [] && last == [] then Compare(FILTER_EQUALITY, attr, []) else f
    case Extensible(attr, dn, rule, value) =>
      if !dn && rule == DN_NAME then Extensible(attr, true, [], value) else f
    case _ => f
  }

  function CollapseAll(fs: seq<Filter>): seq<Filter>
    decreases fs, 0
  {
    if fs == [] then [] else [Collapse(fs[0])] + CollapseAll(fs[1..])
  }

  lemma {:induction false} AppendAllShape(p: Packet, cs: seq<Packet>)
    ensures AppendAll(p, cs).id == p.id && AppendAll(p, cs).value == p.value
    ensures AppendAll(p, cs).children == p.children + cs
    ensures AppendAll(p, cs).data == p.data + ConcatBytes(cs)
    decreases |cs|
  {
    hide Bytes;
    if cs != [] {
      AppendAllShape(AppendChild(p, cs[0]), cs[1..]);
      assert p.children + cs == (p.children + [cs[0]]) + cs[1..];
    }
  }

  lemma ChildrenOfSet(tag: nat, cs: seq<Packet>)
    ensures AppendAll(Shell(tag), cs).children == cs && AppendAll(Shell(tag), cs).id == Shell(tag).id
  {
    hide AppendAll;
    AppendAllShape(Shell(tag), cs);
    assert [] + cs == cs;
  }

  lemma {:induction false} PrintedParts(any: seq<bytes>, last: bytes, i: nat)
    requires i > 0
    ensures DecompileParts(AnyPackets(any) + Optional(SUBSTRINGS_FINAL, last), i) == Starred(any) + Escape(last)
    decreases |any|
  {
    hide Escape;
    var cs := AnyPackets(any) + Optional(SUBSTRINGS_FINAL, last);
    if any == [] {
      assert cs == Optional(SUBSTRINGS_FINAL, last);
      assert Escape([]) == [] by { EscapedText([]); }
      if last != [] {
        assert cs[1..] == [];
      }
    } else {
      assert cs[1..] == AnyPackets(any[1..]) + Optional(SUBSTRINGS_FINAL, last);
      PrintedParts(any[1..], last, i + 1);
      assert Escape(any[0]) + [STAR] + (Starred(any[1..]) + Escape(last)) == Starred(any) + Escape(last);
    }
  }

  lemma PrintedSubstrings(initial: bytes, any: seq<bytes>, last: bytes)
    requires initial != [] || any != [] || last != []
    ensures DecompileParts(PartPackets(initial, any, last), 0) == SubstringsText(initial, any, last)
  {
    hide Escape;
    var cs := PartPackets(initial, any, last);
    assert Escape([]) == [] by { EscapedText([]); }
    if initial != [] {
      assert cs[1..] == AnyPackets(any) + Optional(SUBSTRINGS_FINAL, last);
      PrintedParts(any, last, 1);
    } else if any != [] {
      assert cs[1..] == AnyPackets(any[1..]) + Optional(SUBSTRINGS_FINAL, last);
      PrintedParts(any[1..], last, 1);
    } else {
      assert cs == [NewString(Context, SUBSTRINGS_FINAL, last)];
      assert cs[1..] == [];
    }
  }

  lemma PrintedAssertion(f: Filter)
    requires f.Extensible?
    ensures ReadAssertion(ToPacket(f).children, Assertion([], false, [], []))
         == Some(Assertion(f.attr, f.dn, f.rule, f.value))
  {
    hide AppendAll;
    var a, b := Optional(RULE_ID, f.rule), Optional(RULE_TYPE, f.attr);
    var c, d := [NewString(Context, RULE_VALUE, f.value)], if f.dn then [NewBoolean(RULE_DN_ATTRIBUTES, true)] else [];
    var cs := a + b + c + d;
    ChildrenOfSet(FILTER_EXTENSIBLE, cs);
    assert cs == a + (b + (c + d));
    var a0 := Assertion([], false, [], []);
    ReadSkips(a, b + (c + d), a0);
    ReadSkips(b, c + d, a0.(rule := f.rule));
    ReadSkips(c, d, a0.(rule := f.rule, attr := f.attr));
    var a3 := a0.(rule := f.rule, attr := f.attr, value := f.value);
    if f.dn {
      assert d[1..] == [];
    }
  }

  /** A list of at most one child is read before the rest. */
  lemma ReadSkips(one: seq<Packet>, rest: seq<Packet>, a: Assertion)
    requires |one| <= 1 && (one != [] ==> one[0].id.tag in {RULE_ID, RULE_TYPE, RULE_VALUE})
    ensures one == [] ==> ReadAssertion(one + rest, a) == ReadAssertion(rest, a)
    ensures one != [] ==> ReadAssertion(one + rest, a) == ReadAssertion(rest,
              if one[0].id.tag == RULE_ID then a.(rule := one[0].data)
              else if one[0].id.tag == RULE_TYPE then a.(attr := one[0].data)
              else a.(value := one[0].data))
  {
    if one == [] {
      assert one + rest == rest;
    } else {
      assert (one + rest)[1..] == rest;
    }
  }

  /** The decompiler prints the packet of a filter as the text of its collapsed form. */
  lemma {:induction false} DecompileFilterPacket(f: Filter)
    requires Compilable(f)
    ensures Decompile(ToPacket(f)) == Some(Print(Collapse(f)))
    decreases f, 1
  {
    hide AppendAll, AppendChild, ValidText, Escape;
    var p := ToPacket(f);
    match f {
      case And(fs) =>
        ChildrenOfSet(FILTER_AND, ToPackets(fs));
        DecompileAllFilters(fs);
      case Or(fs) =>
        ChildrenOfSet(FILTER_OR, ToPackets(fs));
        DecompileAllFilters(fs);
      case Not(g) =>
        AppendShape(Shell(FILTER_NOT), ToPacket(g));
        DecompileFilterPacket(g);
      case Compare(kind, attr, value) =>
        AppendShape(Shell(kind), Octets(attr));
        AppendShape(AppendChild(Shell(kind), Octets(attr)), Octets(value));
        assert PrintBody(f) == attr + Operator(kind) + Escape(value);
      case Present(attr) =>
      case Substrings(attr, initial, any, last) =>
        DecompileSubstringsPacket(f);
      case Extensible(attr, dn, rule, value) =>
        ChildrenOfSet(FILTER_EXTENSIBLE, AssertionPackets(attr, dn, rule, value));
        PrintedAssertion(f);
        CollapsedAssertion(f);
    }
  }

  lemma CollapsedAssertion(f: Filter)
    requires f.Extensible?
    ensures PrintBody(Collapse(f)) == PrintAssertion(Assertion(f.attr, f.dn, f.rule, f.value))
  {
    hide Escape;
  }

  lemma AppendShape(p: Packet, c: Packet)
    ensures AppendChild(p, c).id == p.id && AppendChild(p, c).children == p.children + [c]
  {
  }

  lemma SubstringsShape(f: Filter)
    requires f.Substrings?
    ensures var p := ToPacket(f);
            && p.id.tag == FILTER_SUBSTRINGS && |p.children| == 2 && p.children[0].data == f.attr
            && p.children[1].children == PartPackets(f.initial, f.any, f.last)
  {
    hide AppendAll, AppendChild, PartPackets;
    var q := AppendAll(EmptySequence(), PartPackets(f.initial, f.any, f.last));
    AppendShape(Shell(FILTER_SUBSTRINGS), Octets(f.attr));
    AppendShape(AppendChild(Shell(FILTER_SUBSTRINGS), Octets(f.attr)), q);
    AppendAllShape(EmptySequence(), PartPackets(f.initial, f.any, f.last));
  }

  lemma DecompileSubstringsPacket(f: Filter)
    requires f.Substrings?
    ensures DecompileBody(ToPacket(f)) == Some(PrintBody(Collapse(f)))
  {
    hide ToPacket, Escape, SubstringsText, PartPackets;
    SubstringsShape(f);
    if f.initial == [] && f.any == [] && f.last == [] {
      assert PartPackets([], [], []) == [] by { NoParts(); }
      assert Escape([]) == [] by { EscapedText([]); }
      assert PrintBody(Collapse(f)) == f.attr + [EQUAL] + [];
    } else {
      PrintedSubstrings(f.initial, f.any, f.last);
      assert PrintBody(f) == f.attr + [EQUAL] + SubstringsText(f.initial, f.any, f.last);
    }
  }

  lemma NoParts()
    ensures PartPackets([], [], []) == []
  {
  }

  lemma {:induction false} DecompileAllFilters(fs: seq<Filter>)
    requires forall g <- fs :: Compilable(g)
    ensures DecompileAll(ToPackets(fs)) == Some(PrintAll(CollapseAll(fs)))
    decreases fs, 0
  {
    hide Decompile, Print, ToPacket, Collapse, Compilable;
    if fs != [] {
      DecompileFilterPacket(fs[0]);
      DecompileAllFilters(fs[1..]);
      assert ToPackets(fs)[1..] == ToPackets(fs[1..]);
      assert CollapseAll(fs)[1..] == CollapseAll(fs[1..]);
    }
  }

  lemma EmptyRule(dn: bool)
    ensures RuleOk([], dn)
  {
  }

  lemma {:induction false} CollapseSurvives(f: Filter)
    requires Compilable(f)
    ensures Compilable(Collapse(f)) && Survives(Collapse(f))
    ensures Survives(f) <==> ToPacket(Collapse(f)) == ToPacket(f)
    decreases f, 1
  {
    hide AppendAll, AppendChild, ValidText;
    match f {
      case And(fs) =>
        CollapseAllSurvives(fs);
        ChildrenOfSet(FILTER_AND, ToPackets(fs));
        ChildrenOfSet(FILTER_AND, ToPackets(CollapseAll(fs)));
      case Or(fs) =>
        CollapseAllSurvives(fs);
        ChildrenOfSet(FILTER_OR, ToPackets(fs));
        ChildrenOfSet(FILTER_OR, ToPackets(CollapseAll(fs)));
      case Not(g) =>
        CollapseSurvives(g);
        AppendShape(Shell(FILTER_NOT), ToPacket(g));
        AppendShape(Shell(FILTER_NOT), ToPacket(Collapse(g)));
        assert ToPacket(f).children[0] == ToPacket(g);
        assert ToPacket(Collapse(f)).children[0] == ToPacket(Collapse(g));
      case Substrings(attr, initial, any, last) =>
        var q := AppendAll(EmptySequence(), PartPackets(initial, any, last));
        AppendShape(Shell(FILTER_SUBSTRINGS), Octets(attr));
        AppendShape(AppendChild(Shell(FILTER_SUBSTRINGS), Octets(attr)), q);
        AppendShape(Shell(FILTER_EQUALITY), Octets(attr));
        AppendShape(AppendChild(Shell(FILTER_EQUALITY), Octets(attr)), Octets([]));
      case Extensible(attr, dn, rule, value) =>
        if !dn && rule == DN_NAME {
          EmptyRule(true);
          PrintedAssertion(f);
          PrintedAssertion(Collapse(f));
        }
      case _ =>
    }
  }

  lemma {:induction false} CollapseAllSurvives(fs: seq<Filter>)
    requires forall g <- fs :: Compilable(g)
    ensures forall g <- CollapseAll(fs) :: Compilable(g) && Survives(g)
    ensures (forall g <- fs :: Survives(g)) <==> ToPackets(CollapseAll(fs)) == ToPackets(fs)
    decreases fs, 0
  {
    hide ToPacket, Collapse, Compilable, Survives;
    if fs != [] {
      CollapseSurvives(fs[0]);
      CollapseAllSurvives(fs[1..]);
      assert fs == [fs[0]] + fs[1..];
      assert CollapseAll(fs)[1..] == CollapseAll(fs[1..]) && CollapseAll(fs)[0] == Collapse(fs[0]);
      assert ToPackets(fs)[0] == ToPacket(fs[0]) && ToPackets(fs)[1..] == ToPackets(fs[1..]);
      var a := ToPackets(CollapseAll(fs));
      assert a[0] == ToPacket(Collapse(fs[0])) && a[1..] == ToPackets(CollapseAll(fs[1..]));
    }
  }

  // ------------------------------------------------------------------ every accepted text is a filter

  /** What the loop variables mean while text t is left. */
  predicate Reading(sc: Scan, t: bytes)
  {
    match sc.state
    case ReadingAttr =>
      && sc.kind.None? && !sc.dn && sc.rule == [] && sc.condition == [] && AttrText(sc.attr)
      && (if sc.attr == [] then t == [] || !OpensSpecial(t[0])
          else !OpensSpecial(sc.attr[0]) && (HalfOperator(sc.attr[|sc.attr| - 1]) ==> t == [] || t[0] != EQUAL))
    case ReadingRule =>
      && sc.kind == Some(FILTER_EXTENSIBLE) && sc.condition == [] && AttrOk(sc.attr, false)
      && RuleSoFar(sc.rule, sc.dn, t)
    case ReadingCondition => Read(sc)
  }

  predicate RuleSoFar(rule: bytes, dn: bool, t: bytes)
  {
    && ValidText(rule) && RPAREN !in rule && NoAssign(rule)
    && (if rule == [] then t == [] || t[0] != EQUAL
        else rule[0] != EQUAL && (rule[|rule| - 1] == COLON ==> t == [] || t[0] != EQUAL))
    && (!dn ==> !(DN_RULE <= rule + t))
  }

  /** What they mean once an operator has been read. */
  predicate Read(sc: Scan)
  {
    && sc.kind.Some?
    && if sc.kind.value == FILTER_EXTENSIBLE then AttrOk(sc.attr, false) && RuleOk(sc.rule, sc.dn)
       else Comparison(sc.kind.value) && AttrOk(sc.attr, sc.kind.value == FILTER_EQUALITY) && sc.rule == [] && !sc.dn
  }

  lemma {:induction false} TextSnoc(s: bytes, t: bytes, w: nat)
    requires ValidText(s) && t != [] && DecodeRune(t).value != RUNE_ERROR && w == DecodeRune(t).width
    ensures ValidText(s + t[..w])
    ensures w <= |t| && EncodeRune(DecodeRune(t).value) == t[..w]
    ensures t[0] <= 0x7F <==> DecodeRune(t).value <= 0x7F
    ensures t[0] <= 0x7F ==> w == 1 && t[..w] == [t[0]] && DecodeRune(t).value == t[0]
    ensures forall i :: 0 <= i < w && t[0] > 0x7F ==> t[i] > 0x7F
  {
    hide EncodeRune, SequenceValue;
    RuneVersusOctet(t);
    RuneOfPrefix(t, w);
    assert ValidText(t[..w]) by {
      assert t[..w][w..] == [];
    }
    ValidTextConcat(s, t[..w]);
  }

  lemma RuneOfPrefix(t: bytes, w: nat)
    requires t != [] && DecodeRune(t).value != RUNE_ERROR && w == DecodeRune(t).width
    ensures DecodeRune(t[..w]) == DecodeRune(t)
  {
    assert forall i :: 0 <= i < w ==> t[..w][i] == t[i];
  }

  lemma ReadingAttrStep(t: bytes, sc: Scan)
    requires sc.state == ReadingAttr && Reading(sc, t) && t != []
    requires DecodeRune(t).value != RUNE_ERROR && DecodeRune(t).value != RPAREN
    ensures var (next, n) := Advance(t, sc, DecodeRune(t)); Reading(next, t[n..])
  {
    hide EncodeRune, DecodeRune, ValidText;
    var r := DecodeRune(t);
    TextSnoc(sc.attr, t, r.width);
    var (next, n) := Advance(t, sc, r);
    if next.state == ReadingAttr {
      assert r.value != COLON && r.value != EQUAL;
      assert next.attr == sc.attr + t[..n];
      if |t| > 1 && HalfOperator(t[0]) {
        assert t[1] == EQUAL ==> AT_LEAST <= t || AT_MOST <= t || APPROX <= t;
      }
    } else if next.state == ReadingRule {
      ReadingRuleStarts(t, n, next.dn);
    } else {
      EmptyRule(next.dn);
    }
  }

  lemma ReadingRuleStarts(t: bytes, n: nat, dn: bool)
    requires t != [] && t[0] == COLON && n <= |t|
    requires if dn then n == 4 && DN_COLON <= t && !(DN_ASSIGN <= t)
             else n == 1 && !(DN_COLON <= t) && !(ASSIGN <= t)
    ensures RuleSoFar([], dn, t[n..])
  {
    if dn {
      if |t| > 4 {
        var five := t[..5];
        assert t[..4] == DN_COLON && five == t[..4] + [t[4]];
        assert t[4] == EQUAL ==> five == DN_ASSIGN;
      }
    } else {
      if |t| > 1 {
        var two := t[..2];
        assert t[1] == EQUAL ==> two == ASSIGN;
      }
      assert [] + t[1..] == t[1..];
      assert t == [COLON] + t[1..];
      assert DN_COLON == [COLON] + DN_RULE;
      assert DN_RULE <= t[1..] ==> DN_COLON <= t;
    }
  }

  lemma ReadingRuleStep(t: bytes, sc: Scan)
    requires sc.state == ReadingRule && Reading(sc, t) && t != []
    requires DecodeRune(t).value != RUNE_ERROR && DecodeRune(t).value != RPAREN
    ensures var (next, n) := Advance(t, sc, DecodeRune(t)); Reading(next, t[n..])
  {
    hide EncodeRune, DecodeRune, ValidText;
    var r := DecodeRune(t);
    TextSnoc(sc.rule, t, r.width);
    var (next, n) := Advance(t, sc, r);
    if next.state == ReadingCondition {
      assert DN_RULE <= sc.rule ==> DN_RULE <= sc.rule + t;
    } else {
      assert next.rule == sc.rule + t[..n];
      assert next.rule + t[n..] == sc.rule + t;
      if |t| > 1 {
        var two := t[..2];
        assert t[0] == COLON && t[1] == EQUAL ==> two == ASSIGN;
      }
    }
  }

  lemma {:induction false} ScanKeepsReading(t: bytes, sc: Scan) returns (left: bytes)
    requires Reading(sc, t) && ScanItem(t, sc).Closed?
    ensures left != [] && left[0] == RPAREN && Reading(ScanItem(t, sc).scan, left)
    decreases |t|
  {
    hide EncodeRune, Reading, SequenceWidth, SequenceValue;
    var r := DecodeRune(t);
    if r.value == RPAREN {
      left := t;
      RuneVersusOctet(t);
    } else {
      var (next, n) := Advance(t, sc, r);
      match sc.state {
        case ReadingAttr => ReadingAttrStep(t, sc);
        case ReadingRule => ReadingRuleStep(t, sc);
        case ReadingCondition => ReadingConditionStep(t, sc);
      }
      left := ScanKeepsReading(t[n..], next);
    }
  }

  lemma ReadingConditionStep(t: bytes, sc: Scan)
    requires sc.state == ReadingCondition && Reading(sc, t) && t != []
    ensures var (next, n) := Advance(t, sc, DecodeRune(t)); Reading(next, t[n..])
  {
    hide EncodeRune, DecodeRune, AttrOk, RuleOk;
  }

  /** Once the loop has stopped at a parenthesis after an operator, names are in order. */
  lemma ClosedIsRead(sc: Scan, left: bytes)
    requires Reading(sc, left) && left != [] && left[0] == RPAREN && sc.kind.Some?
    ensures Read(sc)
  {
    hide ValidText, AttrOk;
    assert DN_RULE <= sc.rule ==> DN_RULE <= sc.rule + left;
  }

  lemma {:induction false} UnescapeKeepsSomething(c: bytes)
    requires c != [] && Unescape(c).Text?
    ensures Unescape(c).s != []
  {
    hide SequenceWidth, SequenceValue;
  }

  /** The parts after the first star, as the part loop takes them. */
  lemma {:induction false} RecogniseParts(parts: seq<bytes>, i: nat, q: Packet) returns (any: seq<bytes>, last: bytes)
    requires 1 <= i < |parts| && AddParts(parts, i, q).Whole?
    ensures [] !in any
    ensures AddParts(parts, i, q).packet == AppendAll(q, AnyPackets(any) + Optional(SUBSTRINGS_FINAL, last))
    decreases |parts| - i
  {
    hide Unescape, AppendChild;
    var u := Unescape(parts[i]);
    if i == |parts| - 1 {
      any := [];
      if parts[i] == [] {
        last := [];
      } else {
        last := u.s;
        UnescapeKeepsSomething(parts[i]);
        var c := NewString(Context, SUBSTRINGS_FINAL, last);
        assert AddParts(parts, i + 1, AppendChild(q, c)) == Whole(AppendChild(q, c));
        AppendOne(q, c);
      }
      assert AnyPackets(any) + Optional(SUBSTRINGS_FINAL, last) == Optional(SUBSTRINGS_FINAL, last);
    } else if parts[i] == [] {
      any, last := RecogniseParts(parts, i + 1, q);
    } else {
      var c := NewString(Context, SUBSTRINGS_ANY, u.s);
      UnescapeKeepsSomething(parts[i]);
      var more;
      more, last := RecogniseParts(parts, i + 1, AppendChild(q, c));
      any := [u.s] + more;
      var cs := AnyPackets(more) + Optional(SUBSTRINGS_FINAL, last);
      assert any[1..] == more;
      assert AnyPackets(any) + Optional(SUBSTRINGS_FINAL, last) == [c] + cs;
      assert ([c] + cs)[1..] == cs;
    }
  }

  lemma RecogniseSubstrings(attr: bytes, parts: seq<bytes>) returns (f: Filter)
    requires |parts| >= 2 && AddParts(parts, 0, EmptySequence()).Whole? && AttrOk(attr, true)
    ensures f.Substrings? && f.attr == attr && Compilable(f)
    ensures AddParts(parts, 0, EmptySequence()).packet
         == AppendAll(EmptySequence(), PartPackets(f.initial, f.any, f.last))
  {
    hide Unescape, AppendChild, AttrOk, EmptySequence;
    var any, last;
    if parts[0] == [] {
      any, last := RecogniseParts(parts, 1, EmptySequence());
      f := Substrings(attr, [], any, last);
      assert PartPackets([], any, last) == AnyPackets(any) + Optional(SUBSTRINGS_FINAL, last);
    } else {
      var u := Unescape(parts[0]);
      UnescapeKeepsSomething(parts[0]);
      var c := NewString(Context, SUBSTRINGS_INITIAL, u.s);
      any, last := RecogniseParts(parts, 1, AppendChild(EmptySequence(), c));
      f := Substrings(attr, u.s, any, last);
      var cs := AnyPackets(any) + Optional(SUBSTRINGS_FINAL, last);
      assert PartPackets(u.s, any, last) == [c] + cs && ([c] + cs)[1..] == cs;
    }
  }

  lemma SplitHasTwoParts(c: bytes)
    requires STAR in c
    ensures |Split(c)| >= 2
  {
  }

  /** The packet built from well-read names is the packet of a filter. */
  lemma RecogniseItem(sc: Scan) returns (f: Filter)
    requires Read(sc) && Build(sc.kind.value, sc).Whole?
    ensures Compilable(f) && ToPacket(f) == Build(sc.kind.value, sc).packet
  {
    hide Unescape, AppendChild, AttrOk, RuleOk, AddParts, Split;
    var kind, c := sc.kind.value, sc.condition;
    var u := Unescape(c);
    if kind == FILTER_EXTENSIBLE {
      f := Extensible(sc.attr, sc.dn, sc.rule, u.s);
      BuildExtensible(f, c);
    } else if kind == FILTER_EQUALITY && c == [STAR] {
      f := Present(sc.attr);
    } else if kind == FILTER_EQUALITY && STAR in c {
      SplitHasTwoParts(c);
      f := RecogniseSubstrings(sc.attr, Split(c));
      Relabel(AddParts(Split(c), 0, EmptySequence()).packet, sc.attr);
    } else {
      f := Compare(kind, sc.attr, u.s);
    }
  }

  lemma Relabel(q: Packet, attr: bytes)
    ensures AppendChild(AppendChild(Shell(FILTER_EQUALITY), Octets(attr)).(id := Shell(FILTER_SUBSTRINGS).id), q)
         == AppendChild(AppendChild(Shell(FILTER_SUBSTRINGS), Octets(attr)), q)
  {
  }

  lemma {:induction false} Recognise(t: bytes) returns (f: Filter)
    requires CompileAt(t).Parsed?
    ensures Compilable(f) && ToPacket(f) == CompileAt(t).packet
    decreases |t|, 1
  {
    hide Build, ScanItem, AppendChild, AppendAll, Compilable, SequenceWidth, SequenceValue, EncodeRune;
    var r := DecodeRune(t);
    RuneVersusOctet(t);
    if r.value == LPAREN {
      f := Recognise(t[1..]);
    } else if r.value == AMPERSAND || r.value == BAR {
      var tag := if r.value == AMPERSAND then FILTER_AND else FILTER_OR;
      var fs := RecogniseSet(t[1..], Shell(tag), 1);
      f := if r.value == AMPERSAND then And(fs) else Or(fs);
      CompilableSet(fs);
    } else if r.value == EXCLAMATION {
      var g := Recognise(t[1..]);
      f := Not(g);
      CompilableNot(g);
    } else {
      StartIsReading(t);
      var left := ScanKeepsReading(t, START);
      var sc := ScanItem(t, START).scan;
      ClosedIsRead(sc, left);
      f := RecogniseItem(sc);
    }
  }

  lemma CompilableSet(fs: seq<Filter>)
    requires forall g <- fs :: Compilable(g)
    ensures Compilable(And(fs)) && Compilable(Or(fs))
  {
  }

  lemma CompilableNot(g: Filter)
    requires Compilable(g)
    ensures Compilable(Not(g))
  {
  }

  lemma StartIsReading(t: bytes)
    requires t != [] ==> !OpensSpecial(t[0])
    ensures Reading(START, t)
  {
  }

  lemma {:induction false} RecogniseSet(t: bytes, parent: Packet, taken: nat) returns (fs: seq<Filter>)
    requires CompileSet(t, parent, taken).Parsed?
    ensures forall g <- fs :: Compilable(g)
    ensures CompileSet(t, parent, taken).packet == AppendAll(parent, ToPackets(fs))
    decreases |t|, 0
  {
    hide CompileAt, AppendChild, Compilable, ToPacket;
    if t[0] != LPAREN {
      fs := [];
    } else {
      var f := Recognise(t[1..]);
      var n := CompileAt(t[1..]).taken;
      var child := AppendChild(parent, ToPacket(f));
      var gs := [];
      if n + 1 <= |t| {
        gs := RecogniseSet(t[n + 1..], child, taken + n + 1);
      }
      fs := [f] + gs;
      assert fs[1..] == gs;
      assert ToPackets(fs) == [ToPacket(f)] + ToPackets(gs);
      assert ToPackets(fs)[1..] == ToPackets(gs);
    }
  }

  // ------------------------------------------------------------------ the main results

  /** Compiling the text of a filter, and the text the decompiler prints for it, gives its packet. */
  lemma FilterRoundTrip(f: Filter)
    requires Compilable(f) && Survives(f)
    ensures CompileText(Print(f)) == Compiled(ToPacket(f))
    ensures Decompile(ToPacket(f)).Some? && CompileText(Decompile(ToPacket(f)).value) == Compiled(ToPacket(f))
  {
    hide CompileText, Print, ToPacket, Compilable, Survives;
    CompilePrinted(f);
    DecompileFilterPacket(f);
    CollapseSurvives(f);
    CompilePrinted(Collapse(f));
  }

  /** For every text the compiler accepts: the packet is that of a filter, it decompiles, and
      compiling the result gives the same packet exactly when that filter survives. */
  lemma AcceptedText(text: bytes) returns (f: Filter)
    requires CompileText(text).Compiled?
    ensures Compilable(f) && CompileText(text).packet == ToPacket(f)
    ensures Decompile(ToPacket(f)).Some?
    ensures CompileText(Decompile(ToPacket(f)).value) == Compiled(ToPacket(f)) <==> Survives(f)
  {
    hide Print, ToPacket, Compilable, Survives, CompileAt;
    f := Recognise(text[1..]);
    DecompileFilterPacket(f);
    CollapseSurvives(f);
    CompilePrinted(Collapse(f));
  }

  lemma StarsOnlyParts()
    ensures Split([STAR, STAR]) == [[], [], []]
    ensures AddParts([[], [], []], 0, EmptySequence()) == Whole(EmptySequence())
  {
    hide IndexByte, Unescape, AppendChild;
    SplitAtStar([], [STAR]);
    SplitAtStar([], []);
    assert [] + [STAR] + [STAR] == [STAR, STAR] && [] + [STAR] + [] == [STAR];
    assert Split([]) == [[]];
    var parts: seq<bytes> := [[], [], []];
    assert AddParts(parts, 3, EmptySequence()) == Whole(EmptySequence());
    assert AddParts(parts, 2, EmptySequence()) == Whole(EmptySequence());
  }

  lemma StarsOnlyBuild(attr: bytes)
    ensures Build(FILTER_EQUALITY, Scan(ReadingCondition, Some(FILTER_EQUALITY), attr, false, [], [STAR, STAR]))
         == Whole(ToPacket(Substrings(attr, [], [], [])))
  {
    hide AppendChild, Split, AddParts, Unescape, PartPackets;
    StarsOnlyParts();
    NoParts();
    Relabel(EmptySequence(), attr);
    assert AppendAll(EmptySequence(), []) == EmptySequence();
  }

  /** "(a=**)" compiles to a substrings filter without parts, which prints as "(a=)", which is
      an equality. */
  lemma StarsOnlyDoNotSurvive()
    ensures var f := Substrings([97], [], [], []);
            && CompileText([LPAREN, 97, EQUAL, STAR, STAR, RPAREN]) == Compiled(ToPacket(f))
            && Decompile(ToPacket(f)) == Some([LPAREN, 97, EQUAL, RPAREN])
            && CompileText([LPAREN, 97, EQUAL, RPAREN]) == Compiled(ToPacket(Compare(FILTER_EQUALITY, [97], [])))
  {
    hide CompileAt, CompileItem, ScanItem, ToPacket, Build, Decompile;
    var attr: bytes, c: bytes := [97], [STAR, STAR];
    var f, g := Substrings(attr, [], [], []), Compare(FILTER_EQUALITY, attr, []);
    var t := attr + ([EQUAL] + (c + ([RPAREN] + [])));
    AsciiIsValid(attr);
    AsciiIsValid(c);
    DispatchItem(attr, [EQUAL] + (c + ([RPAREN] + [])));
    ScanComparison(FILTER_EQUALITY, attr, c, []);
    StarsOnlyBuild(attr);
    CompileClosed(t, FILTER_EQUALITY, Scan(ReadingCondition, Some(FILTER_EQUALITY), attr, false, [], c), 4, ToPacket(f));
    assert [LPAREN, 97, EQUAL, STAR, STAR, RPAREN][1..] == t;
    assert Print(g) == [LPAREN, 97, EQUAL, RPAREN] by { EscapedText([]); }
    DecompileFilterPacket(f);
    CompilePrinted(g);
  }

  lemma DnRuleScans()
    ensures ScanItem([97, COLON, 100, 110, RPAREN], START)
         == Closed(Scan(ReadingRule, Some(FILTER_EXTENSIBLE), [97], false, DN_NAME, []), 4)
  {
    hide ScanItem, ValidText;
    var attr: bytes, end: bytes := [97], [RPAREN];
    var t := attr + ([COLON] + (DN_NAME + end));
    assert t == [97, COLON, 100, 110, RPAREN];
    var named := START.(attr := attr);
    AsciiIsValid(attr);
    AsciiIsValid(DN_NAME);
    assert [] + attr == attr && [] + DN_NAME == DN_NAME;
    ScanAttr(attr, [COLON] + (DN_NAME + end), START);
    var u := [COLON] + (DN_NAME + end);
    var ruling := named.(kind := Some(FILTER_EXTENSIBLE), state := ReadingRule);
    assert u == [COLON, 100, 110, RPAREN] && u[1..] == DN_NAME + end;
    assert u[1] != ASSIGN[1] && u[3] != DN_COLON[3] && u[3] != DN_ASSIGN[3];
    ScanStep(u, named, ruling, 1);
    ScanRule(DN_NAME, end, ruling);
    DnRuleEnds(end, ruling.(rule := DN_NAME));
  }

  lemma DnRuleEnds(end: bytes, sc: Scan)
    requires end == [RPAREN]
    ensures ScanItem(end, sc) == Closed(sc, 0)
  {
    AsciiRune(end);
  }

  lemma DnRuleBuilds()
    ensures Build(FILTER_EXTENSIBLE, Scan(ReadingRule, Some(FILTER_EXTENSIBLE), [97], false, DN_NAME, []))
         == Whole(ToPacket(Extensible([97], false, DN_NAME, [])))
  {
    hide AppendChild, ToPacket;
    assert Unescape([]) == Text([]);
    BuildExtensible(Extensible([97], false, DN_NAME, []), []);
  }

  /** "(a:dn)" compiles to a match by a rule called "dn", which prints as "(a:dn:=)", which is a match
      without a rule but with the dn flag. */
  lemma RuleCalledDnDoesNotSurvive()
    ensures var f := Extensible([97], false, DN_NAME, []);
            && CompileText([LPAREN, 97, COLON, 100, 110, RPAREN]) == Compiled(ToPacket(f))
            && Decompile(ToPacket(f)) == Some([LPAREN, 97, COLON, 100, 110, COLON, EQUAL, RPAREN])
            && CompileText([LPAREN, 97, COLON, 100, 110, COLON, EQUAL, RPAREN])
               == Compiled(ToPacket(Extensible([97], true, [], [])))
  {
    hide CompileText, ToPacket, Decompile, Print, Compilable, Survives;
    var f, g := Extensible([97], false, DN_NAME, []), Extensible([97], true, [], []);
    DnRuleCompiles();
    FlagPrints();
    DecompileFilterPacket(f);
    CompilePrinted(g);
  }

  lemma DnRuleCompiles()
    ensures var f := Extensible([97], false, DN_NAME, []);
            Compilable(f) && CompileText([LPAREN, 97, COLON, 100, 110, RPAREN]) == Compiled(ToPacket(f))
  {
    hide CompileAt, CompileItem, ScanItem, ToPacket, Build;
    var attr: bytes := [97];
    var f := Extensible(attr, false, DN_NAME, []);
    var t := attr + [COLON, 100, 110, RPAREN];
    assert t == [97, COLON, 100, 110, RPAREN];
    AsciiIsValid(attr);
    AsciiIsValid(DN_NAME);
    DispatchItem(attr, [COLON, 100, 110, RPAREN]);
    DnRuleScans();
    DnRuleBuilds();
    CompileClosed(t, FILTER_EXTENSIBLE, Scan(ReadingRule, Some(FILTER_EXTENSIBLE), attr, false, DN_NAME, []), 4, ToPacket(f));
    assert [LPAREN, 97, COLON, 100, 110, RPAREN][1..] == t;
  }

  lemma FlagPrints()
    ensures var g := Extensible([97], true, [], []);
            Compilable(g) && Survives(g) && Print(g) == [LPAREN, 97, COLON, 100, 110, COLON, EQUAL, RPAREN]
  {
    AsciiIsValid([97]);
    AsciiIsValid([]);
  }

  // ------------------------------------------------------------------ through the BER codec

  /** No extensible match with the dn flag. */
  predicate NoDnFlag(f: Filter)
    decreases f
  {
    match f
    case And(fs) => forall g <- fs :: NoDnFlag(g)
    case Or(fs) => forall g <- fs :: NoDnFlag(g)
    case Not(g) => NoDnFlag(g)
    case Extensible(_, dn, _, _) => !dn
    case _ => true
  }

  /** A packet the codec reads back, inside another one. */
  ghost predicate GoodPart(p: Packet)
  {
    Good(p) && !IsEoc(p)
  }

  lemma GoodLeaf(c: Class, tag: nat, v: Value, data: bytes)
    requires tag < HIGH_TAG && (c == Universal ==> tag != TAG_EOC)
    ensures GoodPart(Packet(Identifier(c, Primitive, tag), v, data, []))
  {
  }

  lemma GoodSet(p: Packet, cs: seq<Packet>)
    requires p.id.kind == Constructed && p.id.tag < HIGH_TAG && p.data == [] && p.children == []
    requires forall c <- cs :: GoodPart(c)
    ensures GoodPart(AppendAll(p, cs))
  {
    hide AppendAll;
    AppendAllShape(p, cs);
    assert [] + cs == cs && [] + ConcatBytes(cs) == ConcatBytes(cs);
  }

  lemma {:induction false} GoodParts(initial: bytes, any: seq<bytes>, last: bytes)
    ensures forall c <- PartPackets(initial, any, last) :: GoodPart(c)
    decreases |any|
  {
    hide GoodPart;
    GoodLeaf(Context, SUBSTRINGS_INITIAL, StringValue(initial), initial);
    GoodLeaf(Context, SUBSTRINGS_FINAL, StringValue(last), last);
    if any != [] {
      GoodLeaf(Context, SUBSTRINGS_ANY, StringValue(any[0]), any[0]);
      GoodParts(initial, any[1..], last);
      assert forall c <- AnyPackets(any[1..]) :: c in PartPackets(initial, any[1..], last);
      assert forall c <- AnyPackets(any) :: c == NewString(Context, SUBSTRINGS_ANY, any[0]) || c in AnyPackets(any[1..]);
    }
  }

  lemma AppendTwo(p: Packet, a: Packet, b: Packet)
    ensures AppendChild(AppendChild(p, a), b) == AppendAll(p, [a, b])
  {
    hide AppendChild;
    assert [a, b][1..] == [b] && [b][1..] == [];
    AppendOne(AppendChild(p, a), b);
  }

  /** Every filter packet is in the domain of the BER codec. */
  lemma {:induction false} FilterPacketIsGood(f: Filter)
    requires Compilable(f)
    ensures GoodPart(ToPacket(f))
    decreases f, 1
  {
    hide GoodPart, AppendChild, AppendAll, AttrOk, RuleOk, PartPackets;
    match f {
      case And(fs) =>
        FilterPacketsAreGood(fs);
        GoodSet(Shell(FILTER_AND), ToPackets(fs));
      case Or(fs) =>
        FilterPacketsAreGood(fs);
        GoodSet(Shell(FILTER_OR), ToPackets(fs));
      case Not(g) =>
        FilterPacketIsGood(g);
        AppendOne(Shell(FILTER_NOT), ToPacket(g));
        GoodSet(Shell(FILTER_NOT), [ToPacket(g)]);
      case Compare(kind, attr, value) =>
        GoodLeaf(Universal, TAG_OCTET_STRING, StringValue(attr), attr);
        GoodLeaf(Universal, TAG_OCTET_STRING, StringValue(value), value);
        AppendTwo(Shell(kind), Octets(attr), Octets(value));
        GoodSet(Shell(kind), [Octets(attr), Octets(value)]);
      case Present(attr) =>
        GoodLeaf(Context, FILTER_PRESENT, StringValue(attr), attr);
      case Substrings(attr, initial, any, last) =>
        GoodParts(initial, any, last);
        GoodSet(EmptySequence(), PartPackets(initial, any, last));
        var q := AppendAll(EmptySequence(), PartPackets(initial, any, last));
        GoodLeaf(Universal, TAG_OCTET_STRING, StringValue(attr), attr);
        AppendTwo(Shell(FILTER_SUBSTRINGS), Octets(attr), q);
        GoodSet(Shell(FILTER_SUBSTRINGS), [Octets(attr), q]);
      case Extensible(attr, dn, rule, value) =>
        GoodLeaf(Context, RULE_ID, StringValue(rule), rule);
        GoodLeaf(Context, RULE_TYPE, StringValue(attr), attr);
        GoodLeaf(Context, RULE_VALUE, StringValue(value), value);
        GoodLeaf(Context, RULE_DN_ATTRIBUTES, BoolValue(true), IntBytes(1));
        GoodSet(Shell(FILTER_EXTENSIBLE), AssertionPackets(attr, dn, rule, value));
    }
  }

  lemma {:induction false} FilterPacketsAreGood(fs: seq<Filter>)
    requires forall g <- fs :: Compilable(g)
    ensures forall c <- ToPackets(fs) :: GoodPart(c)
    decreases fs, 0
  {
    hide GoodPart, ToPacket, Compilable;
    if fs != [] {
      FilterPacketIsGood(fs[0]);
      FilterPacketsAreGood(fs[1..]);
    }
  }

  /** The packet as it comes out of the reader prints the same text, unless a dn flag lost the
      Go value that DecompileFilter asserts to be a bool. */
  lemma {:induction false} DecompileNormal(f: Filter)
    requires Compilable(f)
    ensures Decompile(Normal(ToPacket(f))) == if NoDnFlag(f) then Decompile(ToPacket(f)) else None
    decreases f, 1
  {
    hide AppendAll, AppendChild, Escape, AttrOk, RuleOk, ContentValue, PartPackets;
    var p := ToPacket(f);
    match f {
      case And(fs) =>
        ChildrenOfSet(FILTER_AND, ToPackets(fs));
        DecompileAllNormal(fs);
      case Or(fs) =>
        ChildrenOfSet(FILTER_OR, ToPackets(fs));
        DecompileAllNormal(fs);
      case Not(g) =>
        AppendShape(Shell(FILTER_NOT), ToPacket(g));
        assert p.children == [ToPacket(g)];
        NormalAt(p.children);
        DecompileNormal(g);
        DecompileFilterPacket(g);
      case Compare(kind, attr, value) =>
        AppendShape(Shell(kind), Octets(attr));
        AppendShape(AppendChild(Shell(kind), Octets(attr)), Octets(value));
        assert p.children == [Octets(attr), Octets(value)];
        NormalAt(p.children);
      case Present(attr) =>
      case Substrings(attr, initial, any, last) =>
        var cs := PartPackets(initial, any, last);
        var q := AppendAll(EmptySequence(), cs);
        AppendAllShape(EmptySequence(), cs);
        assert q.children == cs;
        AppendShape(Shell(FILTER_SUBSTRINGS), Octets(attr));
        AppendShape(AppendChild(Shell(FILTER_SUBSTRINGS), Octets(attr)), q);
        assert p.children == [Octets(attr), q];
        NormalAt(p.children);
        DecompilePartsNormal(cs, 0);
      case Extensible(attr, dn, rule, value) =>
        DecompileExtensibleNormal(f);
    }
  }

  lemma {:induction false} NormalAt(cs: seq<Packet>)
    ensures forall i :: 0 <= i < |cs| ==> NormalAll(cs)[i] == Normal(cs[i])
  {
    hide Normal;
    if cs != [] {
      NormalAt(cs[1..]);
    }
  }

  lemma {:induction false} DecompilePartsNormal(cs: seq<Packet>, i: nat)
    ensures DecompileParts(NormalAll(cs), i) == DecompileParts(cs, i)
    decreases |cs|
  {
    hide Escape, ContentValue;
    if cs != [] {
      assert NormalAll(cs)[1..] == NormalAll(cs[1..]);
      DecompilePartsNormal(cs[1..], i + 1);
    }
  }

  lemma {:induction false} DecompileAllNormal(fs: seq<Filter>)
    requires forall g <- fs :: Compilable(g)
    ensures DecompileAll(NormalAll(ToPackets(fs)))
         == if forall g <- fs :: NoDnFlag(g) then DecompileAll(ToPackets(fs)) else None
    decreases fs, 0
  {
    hide Decompile, Normal, ToPacket, NoDnFlag, Compilable;
    if fs != [] {
      DecompileNormal(fs[0]);
      DecompileFilterPacket(fs[0]);
      DecompileAllNormal(fs[1..]);
      DecompileAllFilters(fs[1..]);
      var ps := ToPackets(fs);
      assert ps[1..] == ToPackets(fs[1..]);
      assert NormalAll(ps)[1..] == NormalAll(ps[1..]);
      assert fs == [fs[0]] + fs[1..];
    }
  }

  /** Children read back carry no Go value, so reading them stops at a dnAttributes child. */
  lemma {:induction false} ReadNormal(cs: seq<Packet>, a: Assertion)
    requires forall c <- cs :: c.id.class_ == Context && c.id.kind == Primitive
    ensures ReadAssertion(NormalAll(cs), a)
         == if exists c <- cs :: c.id.tag == RULE_DN_ATTRIBUTES then None else ReadAssertion(cs, a)
    decreases |cs|
  {
    if cs != [] {
      var c := cs[0];
      assert Normal(c) == Packet(c.id, NoValue, c.data, NormalAll(c.children));
      assert NormalAll(cs)[1..] == NormalAll(cs[1..]);
      assert cs == [c] + cs[1..];
      var b := if c.id.tag == RULE_ID then a.(rule := c.data)
               else if c.id.tag == RULE_TYPE then a.(attr := c.data)
               else if c.id.tag == RULE_VALUE then a.(value := c.data) else a;
      ReadNormal(cs[1..], b);
    }
  }

  lemma DecompileExtensibleNormal(f: Filter)
    requires f.Extensible?
    ensures Decompile(Normal(ToPacket(f))) == if !f.dn then Decompile(ToPacket(f)) else None
  {
    hide AppendAll, Escape, PrintAssertion, ReadAssertion;
    var cs := AssertionPackets(f.attr, f.dn, f.rule, f.value);
    ChildrenOfSet(FILTER_EXTENSIBLE, cs);
    assert ToPacket(f) == AppendAll(Shell(FILTER_EXTENSIBLE), cs);
    if f.dn {
      assert cs[|cs| - 1] == NewBoolean(RULE_DN_ATTRIBUTES, true);
    }
    ReadNormal(cs, Assertion([], false, [], []));
    PrintedAssertion(f);
  }

  /** A filter sent as octets and read back: the reader accepts it whole, and the packet prints
      the same text exactly when no extensible match carries the dn flag; with the flag,
      decompiling what was read is an error. */
  lemma FilterOverTheWire(f: Filter, rest: bytes)
    requires Compilable(f) && Sized(ToPacket(f))
    ensures DecodePacket(Bytes(ToPacket(f)) + rest) == Ok(Normal(ToPacket(f)), |Bytes(ToPacket(f))|)
    ensures Decompile(Normal(ToPacket(f))) == Decompile(ToPacket(f)) <==> NoDnFlag(f)
    ensures !NoDnFlag(f) ==> Decompile(Normal(ToPacket(f))) == None
  {
    hide ToPacket, Bytes, Decompile, Normal, DecodePacket, Sized, Compilable, NoDnFlag, Good;
    FilterPacketIsGood(f);
    PacketRoundTrip(ToPacket(f), rest);
    DecompileNormal(f);
    DecompileFilterPacket(f);
  }
}
