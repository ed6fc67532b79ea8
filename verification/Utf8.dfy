/**
 UTF-8 as the libraries use it: Go's utf8.DecodeRune on a byte string, which accepts exactly the
 sequences of section 4 of RFC 3629, and the encoder that inverts it.
 */
module Utf8 {
  import opened Base

  /** U+FFFD, which Go also returns for malformed input. */
  const RUNE_ERROR: nat := 0xFFFD

  datatype Rune = Rune(value: nat, width: nat)

  predicate Tail(b: byte)
  {
    0x80 <= b <= 0xBF
  }

  /** UTF8-1 to UTF8-4 of section 4 of RFC 3629: the width of a well-formed sequence at the
      start of s, or 0. */
  function SequenceWidth(s: bytes): (w: nat)
    ensures w <= 4 && w <= |s|
  {
    if s == [] then 0
    else if s[0] <= 0x7F then 1
    else if 0xC2 <= s[0] <= 0xDF && |s| >= 2 && Tail(s[1]) then 2
    else if |s| >= 3 && Tail(s[1]) && Tail(s[2]) &&
            (|| (s[0] == 0xE0 && s[1] >= 0xA0)
             || 0xE1 <= s[0] <= 0xEC
             || (s[0] == 0xED && s[1] <= 0x9F)
             || 0xEE <= s[0] <= 0xEF) then 3
    else if |s| >= 4 && Tail(s[1]) && Tail(s[2]) && Tail(s[3]) &&
            (|| (s[0] == 0xF0 && s[1] >= 0x90)
             || 0xF1 <= s[0] <= 0xF3
             || (s[0] == 0xF4 && s[1] <= 0x8F)) then 4
    else 0
  }

  /** The low bits of an octet, below a power of two. */
  function Bits(b: byte, m: nat): nat
    requires m > 0
  {
    b % m
  }

  /** The code point the bits of a sequence of width w spell. */
  function SequenceValue(s: bytes, w: nat): nat
    requires 1 <= w <= 4 && w <= |s|
  {
    if w == 1 then s[0]
    else if w == 2 then Bits(s[0], 32) * 64 + Bits(s[1], 64)
    else if w == 3 then (Bits(s[0], 16) * 64 + Bits(s[1], 64)) * 64 + Bits(s[2], 64)
    else ((Bits(s[0], 8) * 64 + Bits(s[1], 64)) * 64 + Bits(s[2], 64)) * 64 + Bits(s[3], 64)
  }

  function DecodeRune(s: bytes): (r: Rune)
    ensures r.width <= |s| && (s != [] ==> 1 <= r.width)
    ensures r.value <= 0x10FFFF
  {
    if s == [] then Rune(RUNE_ERROR, 0)
    else
      var w := SequenceWidth(s);
      if w == 0 then Rune(RUNE_ERROR, 1)
      else
        ReencodeSequence(s, w);
        Rune(SequenceValue(s, w), w)
  }

  /** The encoding table of section 3 of RFC 3629. */
  function EncodeRune(r: nat): bytes
    requires r <= 0x10FFFF
  {
    if r <= 0x7F then [r]
    else if r <= 0x7FF then [0xC0 + r / 64, 0x80 + r % 64]
    else if r <= 0xFFFF then [0xE0 + r / 4096, 0x80 + r / 64 % 64, 0x80 + r % 64]
    else [0xF0 + r / 262144, 0x80 + r / 4096 % 64, 0x80 + r / 64 % 64, 0x80 + r % 64]
  }

  /** Decoding a well-formed sequence and encoding the result gives the same octets. */
  lemma ReencodeSequence(s: bytes, w: nat)
    requires w == SequenceWidth(s) > 0
    ensures SequenceValue(s, w) <= 0x10FFFF && EncodeRune(SequenceValue(s, w)) == s[..w]
    ensures w == 1 <==> SequenceValue(s, w) <= 0x7F
    ensures w == 2 <==> 0x80 <= SequenceValue(s, w) <= 0x7FF
    ensures w == 3 <==> 0x800 <= SequenceValue(s, w) <= 0xFFFF
    ensures !(0xD800 <= SequenceValue(s, w) <= 0xDFFF)
  {
    if w == 2 {
      Digits(Bits(s[0], 32), Bits(s[1], 64));
    } else if w == 3 {
      ReencodeThree(s);
    } else if w == 4 {
      ReencodeFour(s);
    }
  }

  lemma ReencodeThree(s: bytes)
    requires SequenceWidth(s) == 3
    ensures var v := SequenceValue(s, 3);
            && 0x800 <= v <= 0xFFFF && !(0xD800 <= v <= 0xDFFF)
            && EncodeRune(v) == s[..3]
  {
    var a, b, c := Bits(s[0], 16), Bits(s[1], 64), Bits(s[2], 64);
    var v := (a * 64 + b) * 64 + c;
    assert s[0] == 0xE0 + a && s[1] == 0x80 + b && s[2] == 0x80 + c;
    ThreeGroups(a, b, c);
  }

  lemma ThreeGroups(a: nat, b: nat, c: nat)
    requires b < 64 && c < 64
    ensures var v := (a * 64 + b) * 64 + c; v / 4096 == a && v / 64 % 64 == b && v % 64 == c
  {
    var v := (a * 64 + b) * 64 + c;
    Digits(a * 64 + b, c);
    Digits(a, b);
    assert v / 4096 == v / 64 / 64;
  }

  lemma ReencodeFour(s: bytes)
    requires SequenceWidth(s) == 4
    ensures var v := SequenceValue(s, 4); 0x10000 <= v <= 0x10FFFF && EncodeRune(v) == s[..4]
  {
    var a, b, c, d := Bits(s[0], 8), Bits(s[1], 64), Bits(s[2], 64), Bits(s[3], 64);
    var v := ((a * 64 + b) * 64 + c) * 64 + d;
    assert s[0] == 0xF0 + a && s[1] == 0x80 + b && s[2] == 0x80 + c && s[3] == 0x80 + d;
    FourGroups(a, b, c, d);
  }

  lemma FourGroups(a: nat, b: nat, c: nat, d: nat)
    requires b < 64 && c < 64 && d < 64
    ensures var v := ((a * 64 + b) * 64 + c) * 64 + d;
            v / 262144 == a && v / 4096 % 64 == b && v / 64 % 64 == c && v % 64 == d
  {
    var v := ((a * 64 + b) * 64 + c) * 64 + d;
    Digits((a * 64 + b) * 64 + c, d);
    Digits(a * 64 + b, c);
    Digits(a, b);
    assert v / 4096 == v / 64 / 64 && v / 262144 == v / 64 / 64 / 64;
  }

  lemma Digits(high: nat, low: nat)
    requires low < 64
    ensures (high * 64 + low) / 64 == high && (high * 64 + low) % 64 == low
  {
  }

  /** Text Go can walk rune by rune without meeting RUNE_ERROR: well-formed, without U+FFFD. */
  predicate ValidText(s: bytes)
    decreases |s|
  {
    s == [] || (DecodeRune(s).value != RUNE_ERROR && ValidText(s[DecodeRune(s).width..]))
  }

  /** A rune that decodes is read from its own octets alone. */
  lemma RuneIsLocal(s: bytes, t: bytes)
    requires s != [] && DecodeRune(s).value != RUNE_ERROR
    ensures DecodeRune(s + t) == DecodeRune(s)
  {
    assert forall i :: 0 <= i < |s| ==> (s + t)[i] == s[i];
  }

  lemma AsciiRune(s: bytes)
    requires s != [] && s[0] <= 0x7F
    ensures DecodeRune(s) == Rune(s[0], 1)
  {
  }

  /** A rune is an ASCII character exactly when its first octet is that character. */
  lemma RuneVersusOctet(s: bytes)
    requires s != [] && DecodeRune(s).value != RUNE_ERROR
    ensures DecodeRune(s).value <= 0x7F <==> s[0] <= 0x7F
    ensures s[0] <= 0x7F ==> DecodeRune(s) == Rune(s[0], 1)
    ensures s[0] > 0x7F ==> forall i :: 0 <= i < DecodeRune(s).width ==> s[i] > 0x7F
    ensures DecodeRune(s).value <= 0x10FFFF
    ensures EncodeRune(DecodeRune(s).value) == s[..DecodeRune(s).width]
  {
    var w := SequenceWidth(s);
    if w > 0 {
      ReencodeSequence(s, w);
    }
  }

  lemma {:induction false} ValidTextConcat(a: bytes, b: bytes)
    requires ValidText(a) && ValidText(b)
    ensures ValidText(a + b)
    decreases |a|
  {
    if a == [] {
      assert a + b == b;
    } else {
      RuneIsLocal(a, b);
      var w := DecodeRune(a).width;
      assert (a + b)[w..] == a[w..] + b;
      ValidTextConcat(a[w..], b);
    }
  }

  lemma {:induction false} AsciiIsValid(s: bytes)
    requires forall i :: 0 <= i < |s| ==> s[i] <= 0x7F
    ensures ValidText(s)
  {
    if s != [] {
      AsciiRune(s);
      AsciiIsValid(s[1..]);
    }
  }

  lemma TwoOctets(v: nat, t: bytes)
    requires 0x80 <= v <= 0x7FF && |t| >= 2 && t[..2] == EncodeRune(v)
    ensures SequenceWidth(t) == 2 && SequenceValue(t, 2) == v
  {
    assert t[0] == t[..2][0] && t[1] == t[..2][1];
    assert Bits(t[0], 32) == v / 64 && Bits(t[1], 64) == v % 64;
  }

  lemma ThreeOctets(v: nat, t: bytes)
    requires 0x800 <= v <= 0xFFFF && !(0xD800 <= v <= 0xDFFF) && |t| >= 3 && t[..3] == EncodeRune(v)
    ensures SequenceWidth(t) == 3 && SequenceValue(t, 3) == v
  {
    assert t[0] == t[..3][0] && t[1] == t[..3][1] && t[2] == t[..3][2];
    assert v / 4096 == v / 64 / 64;
    assert Bits(t[0], 16) == v / 4096 && Bits(t[1], 64) == v / 64 % 64 && Bits(t[2], 64) == v % 64;
  }

  lemma FourOctets(v: nat, t: bytes)
    requires 0x10000 <= v <= 0x10FFFF && |t| >= 4 && t[..4] == EncodeRune(v)
    ensures SequenceWidth(t) == 4 && SequenceValue(t, 4) == v
  {
    assert t[0] == t[..4][0] && t[1] == t[..4][1] && t[2] == t[..4][2] && t[3] == t[..4][3];
    assert v / 4096 == v / 64 / 64 && v / 262144 == v / 64 / 64 / 64;
    assert Bits(t[0], 8) == v / 262144 && Bits(t[1], 64) == v / 4096 % 64;
    assert Bits(t[2], 64) == v / 64 % 64 && Bits(t[3], 64) == v % 64;
  }

  /** Every character that is not a surrogate is read back from its encoding, whatever follows. */
  lemma DecodeEncoded(v: nat, rest: bytes)
    requires v <= 0x10FFFF && !(0xD800 <= v <= 0xDFFF)
    ensures var s := EncodeRune(v);
            && SequenceWidth(s + rest) == |s| && SequenceValue(s + rest, |s|) == v
            && DecodeRune(s + rest) == Rune(v, |s|)
  {
    hide Bits;
    var s := EncodeRune(v);
    var t := s + rest;
    assert t[..|s|] == s;
    if v > 0xFFFF {
      FourOctets(v, t);
    } else if v > 0x7FF {
      ThreeOctets(v, t);
    } else if v > 0x7F {
      TwoOctets(v, t);
    }
  }

  /** The examples of section 7 of RFC 3629 and one of four octets. */
  lemma KnownCharacters()
    ensures EncodeRune(0x41) == [0x41] && EncodeRune(0x391) == [0xCE, 0x91]
    ensures EncodeRune(0x2262) == [0xE2, 0x89, 0xA2] && EncodeRune(0xD55C) == [0xED, 0x95, 0x9C]
    ensures EncodeRune(0x233B4) == [0xF0, 0xA3, 0x8E, 0xB4] && EncodeRune(0xFEFF) == [0xEF, 0xBB, 0xBF]
  {
  }
}
