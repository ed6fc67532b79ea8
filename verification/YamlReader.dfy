/**
 The reader of the YAML parser (yaml.v1/readerc.go) for UTF-8 input: a raw buffer refilled from the
 input in pieces of any size, decoded character by character into the buffer of the scanner.
 */
module YamlReader {
  import opened Base
  import opened Utf8
  import opened YamlDecode
  import B = BufioReader

  const RAW_BUFFER_SIZE: nat := 512
  const BUFFER_SIZE: nat := 1536

  /** Up to this lookahead the buffer takes a whole raw buffer and the final NUL on top of it. */
  const MAX_LENGTH: nat := 256

  datatype Encoding = Any | UTF8 | UTF16

  datatype Outcome = Done | InputError(e: B.SourceError) | ReaderError(problem: Problem) | OtherEncoding
                   | Overflow     // a character does not fit the buffer: the source indexes past its end

  // ------------------------------------------------------------------ the input

  /** What the input delivers before its first error, and that error. */
  function Incoming(chunks: seq<B.Chunk>): (bytes, B.SourceError)
    decreases |chunks|
  {
    if chunks == [] then ([], B.EOF)
    else if chunks[0].err.Some? then (chunks[0].data, chunks[0].err.value)
    else (chunks[0].data + Incoming(chunks[1..]).0, Incoming(chunks[1..]).1)
  }

  /** How much can still be read, counting reads. */
  function Weight(chunks: seq<B.Chunk>): nat
    decreases |chunks|
  {
    if chunks == [] then 0 else |chunks[0].data| + 1 + Weight(chunks[1..])
  }

  lemma OneRead(chunks: seq<B.Chunk>, n: nat, got: bytes, e: Option<B.SourceError>)
    requires if chunks == [] then n == 0 && got == [] && e == Some(B.EOF)
             else n <= |chunks[0].data| && got == chunks[0].data[..n]
                  && e == (if n == |chunks[0].data| then chunks[0].err else None)
    requires chunks != [] ==> n > 0 || chunks[0].data == []
    ensures e.Some? ==> Incoming(chunks) == (got, e.value)
    ensures e.None? ==> Incoming(chunks) == (got + Incoming(B.After(chunks, n)).0, Incoming(B.After(chunks, n)).1)
    ensures Weight(B.After(chunks, n)) <= Weight(chunks)
    ensures chunks != [] && e.None? ==> Weight(B.After(chunks, n)) < Weight(chunks)
  {
    if chunks != [] {
      var c := chunks[0];
      if n == |c.data| {
        assert got == c.data;
        assert |chunks| == 1 ==> chunks[1..] == [];
        assert |chunks| == 1 && c.err.Some? ==> B.Rest(chunks)[1..] == [];
      } else {
        var left := B.Chunk(c.data[n..], c.err);
        assert B.After(chunks, n)[0] == left && B.After(chunks, n)[1..] == chunks[1..];
        assert c.data == got + c.data[n..];
        assert got + (c.data[n..] + Incoming(chunks[1..]).0) == c.data + Incoming(chunks[1..]).0;
      }
    }
  }

  // ------------------------------------------------------------------ byte order marks

  predicate MarksUtf16(s: bytes)
  {
    |s| >= 2 && ((s[0] == 0xFF && s[1] == 0xFE) || (s[0] == 0xFE && s[1] == 0xFF))
  }

  predicate MarksUtf8(s: bytes)
  {
    |s| >= 3 && s[0] == 0xEF && s[1] == 0xBB && s[2] == 0xBF
  }

  /** A stream without its UTF-8 byte order mark. */
  function WithoutMark(s: bytes): bytes
  {
    if MarksUtf8(s) then s[3..] else s
  }

  /** The marks are the character U+FEFF, in UTF-8 or as a word of two octets in either order. */
  lemma MarksAreTheCharacter(s: bytes)
    ensures MarksUtf8(s) <==> EncodeRune(0xFEFF) <= s
    ensures MarksUtf16(s) <==> [0xFEFF / 256, 0xFEFF % 256] <= s || [0xFEFF % 256, 0xFEFF / 256] <= s
    ensures WithoutMark(EncodeRune(0xFEFF) + s) == s
  {
    KnownCharacters();
    assert (EncodeRune(0xFEFF) + s)[3..] == s;
    if |s| >= 2 {
      assert s[..2] == [s[0], s[1]];
    }
    if |s| >= 3 {
      assert s[..3] == [s[0], s[1], s[2]];
    }
  }

  // ------------------------------------------------------------------ the parser's reader

  class Parser {
    const input: B.ByteSource
    const raw: array<byte>
    const buf: array<byte>
    var rawPos: nat
    var rawLen: nat
    var bufPos: nat
    var bufLen: nat
    var unread: nat
    var eof: bool
    var encoding: Encoding

    ghost predicate Shape()
      reads this
    {
      && raw != buf && raw.Length == RAW_BUFFER_SIZE && buf.Length == BUFFER_SIZE
      && rawPos <= rawLen <= raw.Length && bufPos <= bufLen <= buf.Length
    }

    /** The buffer holds whole characters, and unread is their number. */
    ghost predicate Valid()
      reads this, buf
    {
      Shape() && WellFormed(Held()) && unread == Count(Held()) && encoding != UTF16
    }

    ghost function Held(): bytes
      requires Shape()
      reads this, buf
    {
      buf[bufPos..bufLen]
    }

    ghost function RawRest(): bytes
      requires Shape()
      reads this, raw
    {
      raw[rawPos..rawLen]
    }

    /** The input not yet decoded. */
    ghost function Ahead(): bytes
      requires Shape()
      reads this, raw, input
    {
      RawRest() + if eof then [] else Incoming(input.chunks).0
    }

    /** Everything has been read and decoded. */
    predicate AtEnd()
      reads this
    {
      eof && rawPos == rawLen
    }

    /** The text not yet decoded. */
    ghost function Text(): bytes
      requires Shape()
      reads this, raw, input
    {
      if encoding == Any then WithoutMark(Ahead()) else Ahead()
    }

    /** How the input ends. */
    ghost function Ending(): B.SourceError
      reads this, input
    {
      if eof then B.EOF else Incoming(input.chunks).1
    }

    constructor (input: B.ByteSource)
      ensures Valid() && this.input == input && fresh(raw) && fresh(buf)
      ensures Held() == [] && encoding == Any && !eof && Ahead() == Incoming(input.chunks).0
    {
      this.input := input;
      raw := new byte[RAW_BUFFER_SIZE];
      buf := new byte[BUFFER_SIZE];
      rawPos, rawLen, bufPos, bufLen, unread := 0, 0, 0, 0, 0;
      eof, encoding := false, Any;
      new;
      assert raw[0..0] == [] && buf[0..0] == [];
      assert [] + Incoming(input.chunks).0 == Incoming(input.chunks).0;
    }

    /** yaml_parser_update_raw_buffer. */
    method UpdateRawBuffer() returns (failure: Option<B.SourceError>)
      requires Shape()
      modifies this`rawPos, this`rawLen, this`eof, raw, input
      ensures Shape()
      ensures failure.None? ==> Ahead() == old(Ahead()) && Ending() == old(Ending()) && (old(eof) ==> eof)
      ensures failure.Some? ==> old(Ending()) != B.EOF
      ensures Weight(input.chunks) <= old(Weight(input.chunks))
      ensures failure.None? && !eof && !(old(rawPos) == 0 && old(rawLen) == raw.Length) ==>
                Weight(input.chunks) < old(Weight(input.chunks))
    {
      hide Incoming, Weight;
      if rawPos == 0 && rawLen == raw.Length {
        return None;
      }
      if eof {
        return None;
      }
      Slide();
      failure := Refill();
    }

    /** One read of the input behind the remaining raw bytes. */
    method Refill() returns (failure: Option<B.SourceError>)
      requires Shape() && rawPos == 0 && rawLen < raw.Length && !eof
      modifies this`rawLen, this`eof, raw, input
      ensures Shape() && rawPos == 0
      ensures failure.None? ==> Ahead() == old(Ahead()) && Ending() == old(Ending())
      ensures failure.Some? ==> old(Ending()) != B.EOF
      ensures Weight(input.chunks) <= old(Weight(input.chunks))
      ensures failure.None? && !eof ==> Weight(input.chunks) < old(Weight(input.chunks))
    {
      hide Incoming, Weight;
      ghost var rest := RawRest();
      ghost var chunks := input.chunks;
      var n, e := input.Read(raw, rawLen);
      ghost var got := raw[rawLen..rawLen + n];
      OneRead(chunks, n, got, e);
      assert raw[..rawLen + n] == raw[..rawLen] + got;
      rawLen := rawLen + n;
      assert raw[rawPos..rawLen] == rest + got;
      assert rest + got + Incoming(input.chunks).0 == rest + (got + Incoming(input.chunks).0);
      assert rest + got + [] == rest + got;
      if e == Some(B.EOF) {
        eof := true;
      } else if e.Some? {
        return e;
      }
      return None;
    }

    /** The remaining raw bytes move to the front. */
    method Slide()
      requires Shape()
      modifies this`rawPos, this`rawLen, raw
      ensures Shape() && rawPos == 0 && rawLen == old(rawLen - rawPos) && raw[..rawLen] == old(RawRest())
    {
      if 0 < rawPos < rawLen {
        forall i | 0 <= i < rawLen - rawPos {
          raw[i] := raw[rawPos + i];
        }
      }
      rawLen := rawLen - rawPos;
      rawPos := 0;
    }

    /** yaml_parser_determine_encoding. */
    method DetermineEncoding() returns (failure: Option<B.SourceError>)
      requires Shape() && encoding == Any
      modifies this`rawPos, this`rawLen, this`eof, this`encoding, raw, input
      ensures Shape()
      ensures failure.Some? ==> old(Ending()) != B.EOF
      ensures failure.None? ==>
                && Ending() == old(Ending()) && (old(eof) ==> eof)
                && Weight(input.chunks) <= old(Weight(input.chunks))
                && encoding == (if MarksUtf16(old(Ahead())) then UTF16 else UTF8)
                && (encoding == UTF8 ==> Ahead() == WithoutMark(old(Ahead())))
    {
      hide Incoming, Weight;
      while !eof && rawLen - rawPos < 3
        invariant Shape() && Ahead() == old(Ahead()) && Ending() == old(Ending()) && (old(eof) ==> eof)
        invariant Weight(input.chunks) <= old(Weight(input.chunks)) && encoding == Any
        decreases !eof, Weight(input.chunks)
      {
        failure := UpdateRawBuffer();
        if failure.Some? {
          return;
        }
      }
      TakeMark();
      return None;
    }

    /** The end of yaml_parser_determine_encoding: the mark, if there is one, is passed over. */
    method TakeMark()
      requires Shape() && (eof || rawLen - rawPos >= 3)
      modifies this`rawPos, this`encoding
      ensures Shape()
      ensures encoding == (if MarksUtf16(old(Ahead())) then UTF16 else UTF8)
      ensures encoding == UTF8 ==> Ahead() == WithoutMark(old(Ahead()))
    {
      hide Incoming;
      var rest := raw[rawPos..rawLen];
      MarkInRest(rest, Ahead());
      var avail := rawLen - rawPos;
      encoding := UTF8;
      if avail >= 2 && rest[0] == 0xFF && rest[1] == 0xFE {
        encoding := UTF16;
        rawPos := rawPos + 2;
      } else if avail >= 2 && rest[0] == 0xFE && rest[1] == 0xFF {
        encoding := UTF16;
        rawPos := rawPos + 2;
      } else if avail >= 3 && rest[0] == 0xEF && rest[1] == 0xBB && rest[2] == 0xBF {
        DropThree(rest, if eof then [] else Incoming(input.chunks).0);
        rawPos := rawPos + 3;
        assert RawRest() == rest[3..];
      }
    }

    /** A character goes into the buffer in UTF-8. */
    method Put(value: nat)
      requires Shape() && value <= 0x10FFFF && bufLen + |EncodeRune(value)| <= buf.Length
      modifies this`bufLen, buf
      ensures Shape() && bufLen == old(bufLen) + |EncodeRune(value)| && Held() == old(Held()) + EncodeRune(value)
    {
      if value <= 0x7FF {
        PutShort(value);
      } else {
        PutLong(value);
      }
    }

    method PutShort(value: nat)
      requires Shape() && value <= 0x7FF && bufLen + |EncodeRune(value)| <= buf.Length
      modifies this`bufLen, buf
      ensures Shape() && bufLen == old(bufLen) + |EncodeRune(value)| && Held() == old(Held()) + EncodeRune(value)
    {
      ghost var held, n, code := buf[bufPos..bufLen], bufLen, EncodeRune(value);
      if value <= 0x7F {
        buf[bufLen] := value;
        bufLen := bufLen + 1;
      } else {
        buf[bufLen] := 0xC0 + value / 64;
        buf[bufLen + 1] := 0x80 + value % 64;
        bufLen := bufLen + 2;
      }
      assert forall i :: 0 <= i < |code| ==> buf[n + i] == code[i];
      WindowGrows(buf, bufPos, n, held, code);
    }

    method PutLong(value: nat)
      requires Shape() && 0x7FF < value <= 0x10FFFF && bufLen + |EncodeRune(value)| <= buf.Length
      modifies this`bufLen, buf
      ensures Shape() && bufLen == old(bufLen) + |EncodeRune(value)| && Held() == old(Held()) + EncodeRune(value)
    {
      hide EncodeRune;
      ghost var held, n, code := buf[bufPos..bufLen], bufLen, EncodeRune(value);
      LongCode(value);
      if value <= 0xFFFF {
        buf[bufLen] := 0xE0 + value / 4096;
        buf[bufLen + 1] := 0x80 + value / 64 % 64;
        buf[bufLen + 2] := 0x80 + value % 64;
        bufLen := bufLen + 3;
      } else {
        buf[bufLen] := 0xF0 + value / 262144;
        buf[bufLen + 1] := 0x80 + value / 4096 % 64;
        buf[bufLen + 2] := 0x80 + value / 64 % 64;
        buf[bufLen + 3] := 0x80 + value % 64;
        bufLen := bufLen + 4;
      }
      assert forall i :: 0 <= i < |code| ==> buf[n + i] == code[i];
      WindowGrows(buf, bufPos, n, held, code);
    }

    /** The inner loop of yaml_parser_update_buffer: every whole character of the raw buffer is decoded,
        checked and put into the buffer; an incomplete one stays. It ends early, full, when one does not fit. */
    method DecodeAvailable() returns (problem: Option<Problem>, full: bool, ghost consumed: bytes)
      requires Valid()
      modifies this`rawPos, this`bufLen, this`unread, buf
      ensures full ==> problem.None? && old(bufLen + (rawLen - rawPos)) > buf.Length
      ensures problem.None? && !full ==>
                Valid() && Held() == old(Held()) + consumed && old(RawRest()) == consumed + RawRest()
      ensures problem.None? && !full ==> Allowed(consumed) && bufLen == old(bufLen) + |consumed|
      ensures problem.None? && !full ==> if eof then RawRest() == [] else |RawRest()| < 4
      ensures problem.Some? ==> Hopeless(old(RawRest()), eof)
    {
      hide EncodeRune, DecodeNext, Allowed, StartsAllowed, WellFormed, Count, SequenceWidth, Hopeless;
      ghost var held, raws := Held(), RawRest();
      consumed, full := [], false;
      Nothing(held, raws);
      while rawPos != rawLen
        invariant Valid() && bufLen == old(bufLen) + |consumed|
        invariant bufLen + (rawLen - rawPos) == old(bufLen + (rawLen - rawPos))
        invariant Held() == held + consumed && raws == consumed + RawRest() && Allowed(consumed)
        decreases rawLen - rawPos
      {
        var rest := raw[rawPos..rawLen];
        var c := Decode(rest, eof);
        match c {
          case NeedMore =>
            NeedsFour(rest, eof);
            return None, false, consumed;
          case Bad(p) =>
            Refused(consumed, rest, raws, eof);
            return Some(p), false, consumed;
          case Character(value, width) =>
            OneDecoded(rest, eof, value, width);
            if bufLen + width > buf.Length {
              return None, true, consumed;
            }
            Onward(held, consumed, rest, width);
            PutCharacter(value, width);
            consumed := consumed + rest[..width];
        }
      }
      return None, false, consumed;
    }

    /** One decoded character moves from the raw buffer to the buffer. */
    method PutCharacter(value: nat, width: nat)
      requires Valid() && value <= 0x10FFFF && rawPos + width <= rawLen && bufLen + width <= buf.Length
      requires WellFormed(EncodeRune(value)) && Count(EncodeRune(value)) == 1
      requires EncodeRune(value) == RawRest()[..width]
      modifies this`rawPos, this`bufLen, this`unread, buf
      ensures Valid() && bufLen == old(bufLen) + width
      ensures Held() == old(Held()) + old(RawRest())[..width] && RawRest() == old(RawRest())[width..]
    {
      hide EncodeRune, WellFormed, Count;
      ghost var held := Held();
      CountConcat(held, EncodeRune(value));
      rawPos := rawPos + width;
      Put(value);
      unread := unread + 1;
    }

    /** The unread characters move to the front of the buffer. */
    method SlideBuffer()
      requires Shape()
      modifies this`bufPos, this`bufLen, buf
      ensures Shape() && bufPos == 0 && Held() == old(Held())
    {
      ghost var held := Held();
      if 0 < bufPos < bufLen {
        forall i | 0 <= i < bufLen - bufPos {
          buf[i] := buf[bufPos + i];
        }
        bufLen := bufLen - bufPos;
        bufPos := 0;
      } else if bufPos == bufLen {
        bufLen := 0;
        bufPos := 0;
      }
      assert buf[..bufLen] == held;
      assert buf[bufPos..bufLen] == buf[..bufLen];
    }

    /** The NUL that marks the end. */
    method PutNul()
      requires Valid() && bufLen < buf.Length
      modifies this`bufLen, this`unread, buf
      ensures Valid() && Held() == old(Held()) + [0]
    {
      hide WellFormed, Count;
      ghost var held := Held();
      OneNul();
      CountConcat(held, [0]);
      buf[bufLen] := 0;
      bufLen := bufLen + 1;
      unread := unread + 1;
      assert buf[bufPos..bufLen] == held + [0];
    }

    /** yaml_parser_update_buffer. What is added to the buffer is exactly what is taken from the text, and a
        NUL in the one call that comes to its end; text is refused only when some character of it is not
        allowed, and the buffer is never too small for a lookahead of up to 256 characters. */
    method UpdateBuffer(length: nat) returns (out: Outcome, ghost consumed: bytes, ghost nul: bool)
      requires Valid()
      modifies this, raw, buf, input
      ensures out == Done ==>
                && Valid() && Held() == old(Held()) + consumed + (if nul then [0] else [])
                && old(Text()) == consumed + Text() && Allowed(consumed)
                && Ending() == old(Ending())
                && (unread >= length || (eof && Text() == []))
                && (nul <==> eof && old(unread) < length && !old(AtEnd()))
                && (nul ==> AtEnd() && Text() == [] && Ahead() == [])
      ensures out.ReaderError? ==> !Allowed(old(Text()))
      ensures out.InputError? ==> old(Ending()) != B.EOF
      ensures out == Overflow ==> length > 256
      ensures out == OtherEncoding ==> old(encoding) == Any && MarksUtf16(old(Ahead()))
    {
      hide WellFormed, Count, Allowed, Incoming, Weight, MarksUtf16, MarksUtf8;
      consumed, nul := [], false;
      Unchanged(Held(), Text());
      if eof && rawPos == rawLen {
        assert Ahead() == [];
        NoMark();
        return Done, consumed, nul;
      }
      if unread >= length {
        return Done, consumed, nul;
      }
      ghost var text, held, ending := Text(), Held(), Ending();
      if encoding == Any {
        var failure := DetermineEncoding();
        if failure.Some? {
          return InputError(failure.value), consumed, nul;
        }
        if encoding == UTF16 {
          return OtherEncoding, consumed, nul;
        }
      }
      SlideBuffer();
      out, consumed, nul := FillBuffer(length);
      if out == Done {
        assert Text() == Ahead();
      }
    }

    /** The body of that loop: the raw buffer is refilled, unless it still holds something the first time, and
        what it holds is decoded. */
    method FillOnce(refill: bool) returns (out: Outcome, ghost piece: bytes)
      requires Valid() && encoding == UTF8 && bufPos == 0
      modifies this`rawPos, this`rawLen, this`bufLen, this`unread, this`eof, raw, buf, input
      ensures out == Done ==>
                && Valid() && Held() == old(Held()) + piece && bufLen == old(bufLen) + |piece| && |piece| <= raw.Length
                && old(Ahead()) == piece + Ahead() && Allowed(piece)
                && Ending() == old(Ending()) && (old(eof) ==> eof)
                && (if eof then RawRest() == [] else rawLen - rawPos < 4)
      ensures out == Done ==> Weight(input.chunks) <= old(Weight(input.chunks))
      ensures out == Done && !eof && refill && old(rawLen - rawPos) < 4 ==> Weight(input.chunks) < old(Weight(input.chunks))
      ensures out.ReaderError? ==> !Allowed(old(Ahead()))
      ensures out.InputError? ==> old(Ending()) != B.EOF
      ensures out == Overflow ==> old(bufLen) + raw.Length > buf.Length
      ensures out != OtherEncoding
    {
      hide WellFormed, Count, Allowed, Incoming, Weight;
      piece := [];
      if refill {
        var failure := UpdateRawBuffer();
        if failure.Some? {
          return InputError(failure.value), piece;
        }
      }
      ghost var raws, more := RawRest(), if eof then [] else Incoming(input.chunks).0;
      var problem, full;
      problem, full, piece := DecodeAvailable();
      if full {
        return Overflow, piece;
      }
      if problem.Some? {
        bufLen := buf.Length;
        return ReaderError(problem.value), piece;
      }
      assert piece + RawRest() + more == piece + (RawRest() + more);
      return Done, piece;
    }

    /** The outer loop of yaml_parser_update_buffer. */
    method FillBuffer(length: nat) returns (out: Outcome, ghost consumed: bytes, ghost nul: bool)
      requires Valid() && encoding == UTF8 && bufPos == 0
      modifies this`rawPos, this`rawLen, this`bufLen, this`unread, this`eof, raw, buf, input
      ensures out == Done ==>
                && Valid() && Held() == old(Held()) + consumed + (if nul then [0] else [])
                && old(Ahead()) == consumed + Ahead() && Allowed(consumed)
                && Ending() == old(Ending())
                && (unread >= length || (eof && Ahead() == []))
                && (nul <==> eof && old(unread) < length)
                && (nul ==> AtEnd() && Ahead() == [])
      ensures out.ReaderError? ==> !Allowed(old(Ahead()))
      ensures out.InputError? ==> old(Ending()) != B.EOF
      ensures out == Overflow ==> length > 256
      ensures out != OtherEncoding
    {
      hide WellFormed, Count, Allowed, Incoming, Weight;
      consumed, nul := [], false;
      ghost var text, held, ending := Ahead(), Held(), Ending();
      Unchanged(held, text);
      var first := true;
      while unread < length
        invariant Valid() && encoding == UTF8 && bufPos == 0
        invariant Held() == held + consumed && text == consumed + Ahead() && Allowed(consumed)
        invariant Ending() == ending
        invariant !first ==> !eof && rawLen - rawPos < 4
        invariant if first then unread == old(unread) else old(unread) < length
        decreases Weight(input.chunks), first
      {
        CountBounds(Held());
        ghost var ahead := Ahead();
        ghost var piece;
        out, piece := FillOnce(!first || rawPos == rawLen);
        first := false;
        if out != Done {
          StillRefused(text, consumed, ahead);
          return out, consumed, nul;
        }
        Extended(text, held, consumed, piece, ahead, Ahead());
        consumed := consumed + piece;
        if eof {
          if bufLen == buf.Length {
            return Overflow, consumed, nul;
          }
          PutNul();
          return Done, consumed, true;
        }
      }
      assert Held() == held + consumed + [];
      return Done, consumed, false;
    }
  }

  function Joined(pieces: seq<bytes>): bytes
  {
    if pieces == [] then [] else pieces[0] + Joined(pieces[1..])
  }

  /** After any number of successful updates, in pieces of any size, the text as a whole is allowed exactly
      when what is still ahead is: reading to the end without an error accepts exactly the allowed texts. */
  lemma {:induction false} PiecesDecide(pieces: seq<bytes>, rest: bytes)
    requires forall i :: 0 <= i < |pieces| ==> Allowed(pieces[i])
    ensures Allowed(Joined(pieces) + rest) <==> Allowed(rest)
  {
    hide Allowed;
    if pieces == [] {
      assert [] + rest == rest;
    } else {
      var more := Joined(pieces[1..]) + rest;
      PiecesDecide(pieces[1..], rest);
      AllowedConcat(pieces[0], more);
      assert Joined(pieces) + rest == pieces[0] + more;
    }
  }

  lemma LongCode(value: nat)
    requires 0x7FF < value <= 0x10FFFF
    ensures EncodeRune(value)
         == if value <= 0xFFFF then [0xE0 + value / 4096, 0x80 + value / 64 % 64, 0x80 + value % 64]
            else [0xF0 + value / 262144, 0x80 + value / 4096 % 64, 0x80 + value / 64 % 64, 0x80 + value % 64]
  {
  }

  lemma WindowGrows(a: array<byte>, lo: nat, n: nat, held: bytes, code: bytes)
    requires lo <= n && n + |code| <= a.Length && a[lo..n] == held
    requires forall i :: 0 <= i < |code| ==> a[n + i] == code[i]
    ensures a[lo..n + |code|] == held + code
  {
    assert a[lo..n + |code|] == a[lo..n] + a[n..n + |code|];
  }

  lemma Nothing(held: bytes, raws: bytes)
    ensures Allowed([]) && held + [] == held && raws == [] + raws
  {
  }

  lemma OneNul()
    ensures WellFormed([0]) && Count([0]) == 1
  {
    assert SequenceWidth([0]) == 1 && [0][1..] == [];
  }

  lemma NeedsFour(rest: bytes, eof: bool)
    requires rest != [] && DecodeNext(rest, eof).NeedMore?
    ensures |rest| < 4 && !eof
  {
  }

  lemma OneDecoded(rest: bytes, eof: bool, value: nat, width: nat)
    requires rest != [] && DecodeNext(rest, eof) == Character(value, width)
    ensures 0 < width <= |rest| && value <= 0x10FFFF && EncodeRune(value) == rest[..width]
    ensures WellFormed(rest[..width]) && Count(rest[..width]) == 1 && Allowed(rest[..width])
  {
    hide EncodeRune, DecodeNext, Allowed, StartsAllowed, WellFormed, Count, SequenceWidth;
    DecodedIsRight(rest, eof, []);
    assert rest + [] == rest;
    OneCharacter(rest, width);
  }

  /** Text that is not allowed however it goes on; at the end of the input it does not. */
  ghost predicate Hopeless(raws: bytes, eof: bool)
  {
    forall more: bytes :: (eof ==> more == []) ==> !Allowed(raws + more)
  }

  /** A character that is not allowed after text that is. */
  lemma Refused(consumed: bytes, rest: bytes, raws: bytes, eof: bool)
    requires Allowed(consumed) && rest != [] && raws == consumed + rest && DecodeNext(rest, eof).Bad?
    ensures Hopeless(raws, eof)
  {
    hide StartsAllowed, SequenceWidth, Allowed, DecodeNext, EncodeRune;
    forall more: bytes | eof ==> more == []
      ensures !Allowed(raws + more)
    {
      DecodedIsRight(rest, eof, more);
      BadStart(rest + more);
      AllowedConcat(consumed, rest + more);
      assert raws + more == consumed + (rest + more);
    }
  }

  lemma BadStart(s: bytes)
    requires s != [] && !StartsAllowed(s)
    ensures !Allowed(s)
  {
    hide StartsAllowed, SequenceWidth;
  }

  lemma Onward(held: bytes, consumed: bytes, rest: bytes, width: nat)
    requires width <= |rest| && Allowed(consumed) && Allowed(rest[..width])
    ensures Allowed(consumed + rest[..width])
    ensures held + (consumed + rest[..width]) == held + consumed + rest[..width]
    ensures consumed + rest == consumed + rest[..width] + rest[width..]
  {
    hide Allowed;
    AllowedConcat(consumed, rest[..width]);
    assert rest == rest[..width] + rest[width..];
  }

  lemma Unchanged(held: bytes, text: bytes)
    ensures held == held + [] + [] && text == [] + text && Allowed([])
  {
  }

  lemma NoMark()
    ensures WithoutMark([]) == []
  {
  }

  lemma StillRefused(text: bytes, consumed: bytes, ahead: bytes)
    requires Allowed(consumed) && text == consumed + ahead
    ensures !Allowed(ahead) ==> !Allowed(text)
  {
    hide Allowed;
    AllowedConcat(consumed, ahead);
  }

  lemma Extended(text: bytes, held: bytes, consumed: bytes, piece: bytes, ahead: bytes, rest: bytes)
    requires Allowed(consumed) && Allowed(piece) && ahead == piece + rest && text == consumed + ahead
    ensures Allowed(consumed + piece) && held + consumed + piece == held + (consumed + piece)
    ensures text == consumed + piece + rest
  {
    hide Allowed;
    AllowedConcat(consumed, piece);
    assert consumed + (piece + rest) == consumed + piece + rest;
  }

  lemma DropThree(rest: bytes, more: bytes)
    requires |rest| >= 3
    ensures (rest + more)[3..] == rest[3..] + more
  {
  }

  /** A mark is decided on the first three bytes. */
  lemma MarkInRest(rest: bytes, all: bytes)
    requires rest <= all && (|rest| >= 3 || rest == all)
    ensures MarksUtf16(all) <==> MarksUtf16(rest)
    ensures MarksUtf8(all) <==> MarksUtf8(rest)
  {
    assert forall i :: 0 <= i < |rest| ==> all[i] == rest[i];
  }
}
