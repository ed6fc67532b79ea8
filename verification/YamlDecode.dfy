/**
 Decoding one character of a YAML stream in UTF-8 (yaml_parser_update_buffer in yaml.v1/readerc.go): the
 library's own checks accept exactly the sequences of sections 3 and 4 of RFC 3629 whose character is
 in the ranges YAML allows.
 */
module YamlDecode {
  import opened Base
  import opened Utf8

  datatype Problem =
    | InvalidLeading(octet: byte)
    | IncompleteSequence
    | InvalidTrailing(k: nat, octet: byte)
    | InvalidLength
    | InvalidCharacter(value: nat)
    | ControlCharacter(value: nat)

  datatype Decoded = Character(value: nat, width: nat) | NeedMore | Bad(problem: Problem)

  /** The width the leading octet announces; 0 for none. */
  function LeadWidth(octet: byte): nat
  {
    if octet < 0x80 then 1
    else if 0xC0 <= octet < 0xE0 then 2
    else if 0xE0 <= octet < 0xF0 then 3
    else if 0xF0 <= octet < 0xF8 then 4
    else 0
  }

  function LeadBits(octet: byte): nat
  {
    if octet < 0x80 then Bits(octet, 128)
    else if 0xC0 <= octet < 0xE0 then Bits(octet, 32)
    else if 0xE0 <= octet < 0xF0 then Bits(octet, 16)
    else Bits(octet, 8)
  }

  /** The characters allowed in a stream. */
  predicate Printable(v: nat)
  {
    || v == 0x09 || v == 0x0A || v == 0x0D || 0x20 <= v <= 0x7E || v == 0x85 || 0xA0 <= v <= 0xD7FF
    || 0xE000 <= v <= 0xFFFD || 0x10000 <= v <= 0x10FFFF
  }

  function Shortest(w: nat): nat
  {
    if w == 2 then 0x80 else if w == 3 then 0x800 else if w == 4 then 0x10000 else 0
  }

  /** The first of the trailing octets that is not one, or w. */
  function FirstBadTail(s: bytes, w: nat, k: nat): (i: nat)
    requires 1 <= k <= w <= |s|
    ensures k <= i <= w && (i < w ==> !Tail(s[i])) && forall j :: k <= j < i ==> Tail(s[j])
    decreases w - k
  {
    if k == w || !Tail(s[k]) then k else FirstBadTail(s, w, k + 1)
  }

  /** What the checks make of the raw bytes at hand; more may follow unless they are the last. */
  function DecodeNext(s: bytes, last: bool): Decoded
    requires s != []
  {
    var w := LeadWidth(s[0]);
    if w == 0 then Bad(InvalidLeading(s[0]))
    else if w > |s| then if last then Bad(IncompleteSequence) else NeedMore
    else
      var k := FirstBadTail(s, w, 1);
      if k < w then Bad(InvalidTrailing(k, s[k]))
      else
        var v := SequenceValue(s, w);
        if v < Shortest(w) then Bad(InvalidLength)
        else if 0xD800 <= v <= 0xDFFF || v > 0x10FFFF then Bad(InvalidCharacter(v))
        else if !Printable(v) then Bad(ControlCharacter(v))
        else Character(v, w)
  }

  function Partial(s: bytes, k: nat): nat
    requires 1 <= k <= |s|
    decreases k
  {
    if k == 1 then LeadBits(s[0]) else Partial(s, k - 1) * 64 + Bits(s[k - 1], 64)
  }

  lemma PartialIsValue(s: bytes, w: nat)
    requires s != [] && w == LeadWidth(s[0]) && 1 <= w <= |s|
    ensures Partial(s, w) == SequenceValue(s, w)
  {
    if w >= 2 {
      assert Partial(s, 2) == LeadBits(s[0]) * 64 + Bits(s[1], 64);
    }
    if w >= 3 {
      assert Partial(s, 3) == Partial(s, 2) * 64 + Bits(s[2], 64);
    }
  }

  /** The decoding part of the loop, on the raw bytes at hand. */
  method Decode(s: bytes, last: bool) returns (c: Decoded)
    requires s != []
    ensures c == DecodeNext(s, last)
  {
    var octet := s[0];
    var width := LeadWidth(octet);
    if width == 0 {
      return Bad(InvalidLeading(octet));
    }
    if width > |s| {
      if last {
        return Bad(IncompleteSequence);
      }
      return NeedMore;
    }
    var value := LeadBits(octet);
    var k := 1;
    while k < width
      invariant 1 <= k <= width
      invariant value == Partial(s, k)
      invariant FirstBadTail(s, width, 1) == FirstBadTail(s, width, k)
    {
      octet := s[k];
      if !Tail(octet) {
        return Bad(InvalidTrailing(k, octet));
      }
      value := value * 64 + Bits(octet, 64);
      k := k + 1;
    }
    PartialIsValue(s, width);
    if value < Shortest(width) {
      return Bad(InvalidLength);
    }
    if 0xD800 <= value <= 0xDFFF || value > 0x10FFFF {
      return Bad(InvalidCharacter(value));
    }
    if !Printable(value) {
      return Bad(ControlCharacter(value));
    }
    return Character(value, width);
  }

  /** The checks against the grammar of RFC 3629: once the announced octets are there, a character in
      the right range is decoded exactly when they are a well-formed sequence. */
  lemma ChecksAreTheGrammar(s: bytes, w: nat)
    requires s != [] && w == LeadWidth(s[0]) && 0 < w <= |s|
    ensures SequenceWidth(s) == (if FirstBadTail(s, w, 1) == w && Shortest(w) <= SequenceValue(s, w) <= 0x10FFFF
                                    && !(0xD800 <= SequenceValue(s, w) <= 0xDFFF) then w else 0)
  {
    var k := FirstBadTail(s, w, 1);
    if w == 1 || k < w {
    } else if w == 2 {
      CheckTwo(s);
    } else if w == 3 {
      CheckThree(s);
    } else {
      CheckFour(s);
    }
  }

  lemma CheckTwo(s: bytes)
    requires |s| >= 2 && LeadWidth(s[0]) == 2 && Tail(s[1])
    ensures SequenceWidth(s) == if 0x80 <= SequenceValue(s, 2) then 2 else 0
  {
    assert Bits(s[0], 32) == s[0] - 0xC0;
  }

  lemma CheckThree(s: bytes)
    requires |s| >= 3 && LeadWidth(s[0]) == 3 && Tail(s[1]) && Tail(s[2])
    ensures SequenceWidth(s) == if 0x800 <= SequenceValue(s, 3) && !(0xD800 <= SequenceValue(s, 3) <= 0xDFFF) then 3 else 0
    ensures SequenceValue(s, 3) <= 0xFFFF
  {
    assert Bits(s[0], 16) == s[0] - 0xE0 && Bits(s[1], 64) == s[1] - 0x80 && Bits(s[2], 64) == s[2] - 0x80;
  }

  lemma CheckFour(s: bytes)
    requires |s| >= 4 && LeadWidth(s[0]) == 4 && Tail(s[1]) && Tail(s[2]) && Tail(s[3])
    ensures SequenceWidth(s) == if 0x10000 <= SequenceValue(s, 4) <= 0x10FFFF then 4 else 0
  {
    assert Bits(s[0], 8) == s[0] - 0xF0 && Bits(s[1], 64) == s[1] - 0x80;
    assert Bits(s[2], 64) == s[2] - 0x80 && Bits(s[3], 64) == s[3] - 0x80;
  }

  /** Without the announced octets there is no sequence, nor after a leading octet that is none. */
  lemma NoSequence(s: bytes)
    requires s != [] && (LeadWidth(s[0]) == 0 || LeadWidth(s[0]) > |s|)
    ensures SequenceWidth(s) == 0
  {
  }

  /** The control characters that a stream may not hold. */
  predicate IsRefused(v: nat)
  {
    || v <= 8 || v == 11 || v == 12 || 14 <= v <= 31 || 127 <= v <= 132 || 134 <= v <= 159
    || 0xFFFE <= v <= 0xFFFF
  }

  /** Every character is decoded to itself, but for those that are refused as control characters. */
  lemma EveryCharacter(v: nat, rest: bytes, last: bool)
    requires v <= 0x10FFFF && !(0xD800 <= v <= 0xDFFF)
    ensures DecodeNext(EncodeRune(v) + rest, last)
         == if IsRefused(v) then Bad(ControlCharacter(v)) else Character(v, |EncodeRune(v)|)
  {
    hide SequenceWidth, SequenceValue;
    var s, w := EncodeRune(v) + rest, |EncodeRune(v)|;
    DecodeEncoded(v, rest);
    assert s[0] == EncodeRune(v)[0];
    ChecksAreTheGrammar(s, w);
  }

  // ------------------------------------------------------------------ text

  /** Well-formed UTF-8 of allowed characters. */
  predicate Allowed(s: bytes)
    decreases |s|
  {
    s == [] || (StartsAllowed(s) && Allowed(s[SequenceWidth(s)..]))
  }

  predicate StartsAllowed(s: bytes)
    requires s != []
  {
    SequenceWidth(s) > 0 && Printable(SequenceValue(s, SequenceWidth(s)))
  }

  /** A character is decoded exactly when an allowed one stands there, and its encoding is what stood
      there; bytes refused, or not enough at the end, do not start one, whatever follows. */
  lemma DecodedIsRight(s: bytes, last: bool, more: bytes)
    requires s != [] && (last ==> more == [])
    ensures match DecodeNext(s, last)
            case Character(v, w) => 0 < w <= |s| && v <= 0x10FFFF && StartsAllowed(s + more)
                                    && SequenceWidth(s + more) == SequenceWidth(s) == w && EncodeRune(v) == s[..w]
            case Bad(_) => !StartsAllowed(s + more)
            case NeedMore => |s| < LeadWidth(s[0]) && !last
  {
    hide EncodeRune, Printable;
    var all, w := s + more, LeadWidth(s[0]);
    assert all[0] == s[0];
    if w == 0 || w > |s| {
      if last {
        assert all == s;
      }
      if w == 0 || last {
        NoSequence(all);
      }
    } else {
      ChecksAreTheGrammar(s, w);
      ChecksAreTheGrammar(all, w);
      LocalChecks(s, more, w);
      if SequenceWidth(s) == w {
        ReencodeSequence(s, w);
      }
    }
  }

  lemma LocalChecks(s: bytes, more: bytes, w: nat)
    requires 1 <= w <= |s| && w <= 4
    ensures FirstBadTail(s + more, w, 1) == w <==> FirstBadTail(s, w, 1) == w
    ensures SequenceValue(s + more, w) == SequenceValue(s, w)
  {
    assert forall i :: 0 <= i < w ==> (s + more)[i] == s[i];
  }

  // ------------------------------------------------------------------ characters held

  /** Whole characters of any kind, and how many. */
  predicate WellFormed(s: bytes)
    decreases |s|
  {
    s == [] || (SequenceWidth(s) > 0 && WellFormed(s[SequenceWidth(s)..]))
  }

  function Count(s: bytes): nat
    requires WellFormed(s)
    decreases |s|
  {
    if s == [] then 0 else 1 + Count(s[SequenceWidth(s)..])
  }

  lemma SequenceIsLocal(s: bytes, t: bytes)
    requires SequenceWidth(s) > 0
    ensures SequenceWidth(s + t) == SequenceWidth(s)
    ensures SequenceValue(s + t, SequenceWidth(s)) == SequenceValue(s, SequenceWidth(s))
  {
    assert forall i :: 0 <= i < |s| ==> (s + t)[i] == s[i];
  }

  lemma {:induction false} CountConcat(a: bytes, b: bytes)
    requires WellFormed(a) && WellFormed(b)
    ensures WellFormed(a + b) && Count(a + b) == Count(a) + Count(b)
    decreases |a|
  {
    hide SequenceWidth;
    if a == [] {
      assert a + b == b;
    } else {
      SequenceIsLocal(a, b);
      var w := SequenceWidth(a);
      assert (a + b)[w..] == a[w..] + b;
      CountConcat(a[w..], b);
    }
  }

  lemma {:induction false} CountBounds(s: bytes)
    requires WellFormed(s)
    ensures Count(s) <= |s| <= 4 * Count(s)
    decreases |s|
  {
    hide SequenceWidth;
    if s != [] {
      CountBounds(s[SequenceWidth(s)..]);
    }
  }

  lemma {:induction false} AllowedIsWellFormed(s: bytes)
    requires Allowed(s)
    ensures WellFormed(s)
    decreases |s|
  {
    hide SequenceWidth, Printable;
    if s != [] {
      AllowedIsWellFormed(s[SequenceWidth(s)..]);
    }
  }

  /** Allowed text goes on being read as long as what follows is allowed, and not otherwise. */
  lemma {:induction false} AllowedConcat(a: bytes, b: bytes)
    requires Allowed(a)
    ensures Allowed(a + b) <==> Allowed(b)
    decreases |a|
  {
    hide SequenceWidth, Printable;
    if a == [] {
      assert a + b == b;
    } else {
      SequenceIsLocal(a, b);
      var w := SequenceWidth(a);
      assert (a + b)[w..] == a[w..] + b;
      AllowedConcat(a[w..], b);
    }
  }

  /** One allowed character. */
  lemma OneCharacter(s: bytes, w: nat)
    requires s != [] && w == SequenceWidth(s) && StartsAllowed(s)
    ensures Allowed(s[..w]) && WellFormed(s[..w]) && Count(s[..w]) == 1
  {
    var c := s[..w];
    assert forall i :: 0 <= i < w ==> c[i] == s[i];
    assert SequenceWidth(c) == w && SequenceValue(c, w) == SequenceValue(s, w);
    assert c[w..] == [];
  }
}
