/** Types shared by every component: bytes as small integers, and the usual Option. */
module Base {

  type byte = b: int | 0 <= b < 256
  type bytes = seq<byte>

  datatype Option<+T> = None | Some(value: T)

  const TWO63: int := 0x8000_0000_0000_0000
  const TWO64: int := 0x1_0000_0000_0000_0000

  const CR: byte := 13
  const LF: byte := 10
  const CRLF: bytes := [13, 10]

  /** A lower-case hexadecimal digit. */
  function HexDigit(n: nat): byte
    requires n < 16
  {
    if n < 10 then 48 + n else 87 + n
  }

  lemma HexDigitIs(n: nat)
    requires n < 16
    ensures HexDigit(n) == "0123456789abcdef"[n] as int
  {
  }

  predicate AsciiText(s: string)
  {
    forall i :: 0 <= i < |s| ==> s[i] as int < 128
  }

  /** The octets of a text of ASCII characters. */
  function Ascii(s: string): (r: bytes)
    requires AsciiText(s)
    ensures |r| == |s| && forall i :: 0 <= i < |s| ==> r[i] == s[i] as int
  {
    seq(|s|, i requires 0 <= i < |s| => s[i] as int as byte)
  }

  function Min(a: int, b: int): int
  {
    if a < b then a else b
  }

  /** Go's bytes.IndexByte: the index of the first c in s, or -1. */
  function IndexByte(s: bytes, c: byte): (i: int)
    ensures -1 <= i < |s|
    ensures i == -1 ==> c !in s
    ensures i >= 0 ==> s[i] == c && c !in s[..i]
  {
    if s == [] then -1
    else if s[0] == c then 0
    else
      var j := IndexByte(s[1..], c);
      assert j >= 0 ==> s[..j + 1] == [s[0]] + s[1..][..j];
      if j == -1 then -1 else j + 1
  }

  /** The first occurrence is determined by what precedes it. */
  lemma {:induction false} IndexByteUnique(a: bytes, c: byte, b: bytes)
    requires c !in a
    ensures IndexByte(a + [c] + b, c) == |a|
  {
    if a != [] {
      IndexByteUnique(a[1..], c, b);
      assert (a + [c] + b)[1..] == a[1..] + [c] + b;
    }
  }

  /** The first occurrence in a concatenation. */
  lemma {:induction false} IndexByteOfConcat(a: bytes, b: bytes, c: byte)
    ensures IndexByte(a + b, c)
         == if IndexByte(a, c) >= 0 then IndexByte(a, c)
            else if IndexByte(b, c) >= 0 then |a| + IndexByte(b, c) else -1
  {
    if a == [] {
      assert a + b == b;
    } else {
      assert (a + b)[1..] == a[1..] + b;
      IndexByteOfConcat(a[1..], b, c);
    }
  }
}
