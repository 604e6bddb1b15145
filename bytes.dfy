/**
 * Byte strings. A Rust `&str` or `String` is modelled by its UTF-8 bytes, so
 * every text in the model is a `seq<byte>`.
 */
module Bytes {

  type byte = b: int | 0 <= b < 256

  const TAB: byte := 0x09
  const LF: byte := 0x0A
  const CR: byte := 0x0D
  const ESC: byte := 0x1B
  const QUOTE: byte := 0x22
  const PLUS: byte := 0x2B
  const MINUS: byte := 0x2D
  const EQUALS: byte := 0x3D
  const BACKSLASH: byte := 0x5C

  /** The bytes of a literal written in ASCII (every character used here is below 128). */
  function Ascii(s: string): (r: seq<byte>)
    ensures |r| == |s|
    ensures forall i :: 0 <= i < |s| ==> r[i] == (s[i] as int) % 256
  {
    seq(|s|, i requires 0 <= i < |s| => (s[i] as int) % 256)
  }

  lemma AsciiConcat(a: string, b: string)
    ensures Ascii(a + b) == Ascii(a) + Ascii(b)
  {
  }

  predicate IsAscii(s: seq<byte>) {
    forall i :: 0 <= i < |s| ==> s[i] < 0x80
  }
}
