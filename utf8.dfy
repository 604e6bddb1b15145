/**
 * UTF-8 well-formedness, following the grammar of section 4 of RFC 3629.
 * `String::from_utf8` accepts exactly the byte sequences that satisfy `ValidUtf8`.
 */
module Utf8 {
  import opened Bytes

  /** UTF8-tail = %x80-BF */
  predicate IsTail(b: byte) {
    0x80 <= b <= 0xBF
  }

  /**
   * The length of the UTF8-char at the head of `s`, or 0 when `s` does not
   * start with one. Each branch is one alternative of the RFC 3629 grammar.
   */
  function CharWidth(s: seq<byte>): (n: nat)
    ensures n <= |s| && n <= 4
    ensures n > 0 ==> |s| > 0
  {
    if |s| == 0 then 0
    else if s[0] <= 0x7F then 1
    else if 0xC2 <= s[0] <= 0xDF then
      (if |s| >= 2 && IsTail(s[1]) then 2 else 0)
    else if s[0] == 0xE0 then
      (if |s| >= 3 && 0xA0 <= s[1] <= 0xBF && IsTail(s[2]) then 3 else 0)
    else if 0xE1 <= s[0] <= 0xEC || 0xEE <= s[0] <= 0xEF then
      (if |s| >= 3 && IsTail(s[1]) && IsTail(s[2]) then 3 else 0)
    else if s[0] == 0xED then
      (if |s| >= 3 && 0x80 <= s[1] <= 0x9F && IsTail(s[2]) then 3 else 0)
    else if s[0] == 0xF0 then
      (if |s| >= 4 && 0x90 <= s[1] <= 0xBF && IsTail(s[2]) && IsTail(s[3]) then 4 else 0)
    else if 0xF1 <= s[0] <= 0xF3 then
      (if |s| >= 4 && IsTail(s[1]) && IsTail(s[2]) && IsTail(s[3]) then 4 else 0)
    else if s[0] == 0xF4 then
      (if |s| >= 4 && 0x80 <= s[1] <= 0x8F && IsTail(s[2]) && IsTail(s[3]) then 4 else 0)
    else 0
  }

  /** UTF8-octets = *( UTF8-char ) */
  predicate ValidUtf8(s: seq<byte>)
    decreases |s|
  {
    |s| == 0 || (CharWidth(s) > 0 && ValidUtf8(s[CharWidth(s)..]))
  }

  /** The width of the leading character depends only on the bytes it covers. */
  lemma CharWidthExtend(a: seq<byte>, b: seq<byte>)
    requires CharWidth(a) > 0
    ensures CharWidth(a + b) == CharWidth(a)
  {
    var n := CharWidth(a);
    assert forall i :: 0 <= i < n ==> (a + b)[i] == a[i];
  }

  /** A character of width `n` followed by well-formed UTF-8 is well-formed UTF-8. */
  lemma ValidUtf8Step(s: seq<byte>, n: nat)
    requires 0 < n == CharWidth(s) && ValidUtf8(s[n..])
    ensures ValidUtf8(s)
  { }

  lemma ValidUtf8ConcatStep(a: seq<byte>, b: seq<byte>, n: nat)
    requires 0 < n == CharWidth(a) && ValidUtf8(a[n..] + b)
    ensures ValidUtf8(a + b)
  {
    CharWidthExtend(a, b);
    assert (a + b)[n..] == a[n..] + b;
    ValidUtf8Step(a + b, n);
  }

  /** Well-formed UTF-8 is closed under concatenation. */
  lemma {:induction false} ValidUtf8Concat(a: seq<byte>, b: seq<byte>)
    requires ValidUtf8(a) && ValidUtf8(b)
    ensures ValidUtf8(a + b)
    decreases |a|
  {
    if |a| == 0 {
      assert a + b == b;
    } else {
      var n := CharWidth(a);
      ValidUtf8Concat(a[n..], b);
      ValidUtf8ConcatStep(a, b, n);
    }
  }

  /** Every ASCII text is well-formed UTF-8. */
  lemma {:induction false} AsciiIsValidUtf8(s: seq<byte>)
    requires IsAscii(s)
    ensures ValidUtf8(s)
    decreases |s|
  {
    if |s| > 0 {
      assert CharWidth(s) == 1;
      AsciiIsValidUtf8(s[1..]);
    }
  }

  /** A Unicode scalar value: a code point that is not a surrogate. */
  predicate IsScalar(cp: int) {
    0 <= cp <= 0x10FFFF && !(0xD800 <= cp <= 0xDFFF)
  }

  /** The UTF-8 encoding of a scalar value (section 3 of RFC 3629). */
  function EncodeScalar(cp: int): (r: seq<byte>)
    requires IsScalar(cp)
    ensures 1 <= |r| <= 4
  {
    if cp < 0x80 then [cp]
    else if cp < 0x800 then [0xC0 + cp / 0x40, 0x80 + cp % 0x40]
    else if cp < 0x10000 then [0xE0 + cp / 0x1000, 0x80 + (cp / 0x40) % 0x40, 0x80 + cp % 0x40]
    else [0xF0 + cp / 0x40000, 0x80 + (cp / 0x1000) % 0x40, 0x80 + (cp / 0x40) % 0x40, 0x80 + cp % 0x40]
  }

  /** The predicate accepts the encoding of every scalar value, as one character. */
  lemma EncodeScalarIsValid(cp: int)
    requires IsScalar(cp)
    ensures CharWidth(EncodeScalar(cp)) == |EncodeScalar(cp)|
    ensures ValidUtf8(EncodeScalar(cp))
  {
    var r := EncodeScalar(cp);
    if cp < 0x80 {
    } else if cp < 0x800 {
      TwoByteWidth(cp);
    } else if cp < 0x10000 {
      ThreeByteWidth(cp);
    } else {
      FourByteWidth(cp);
    }
    assert r[|r|..] == [];
  }

  lemma TwoByteWidth(cp: int)
    requires 0x80 <= cp < 0x800
    ensures CharWidth(EncodeScalar(cp)) == 2
  {
    var r := EncodeScalar(cp);
    assert 0xC2 <= r[0] <= 0xDF;
  }

  lemma ThreeByteWidth(cp: int)
    requires IsScalar(cp) && 0x800 <= cp < 0x10000
    ensures CharWidth(EncodeScalar(cp)) == 3
  {
    var r := EncodeScalar(cp);
    if cp < 0x1000 {
      assert r[0] == 0xE0;
      assert 0xA0 <= r[1];
    } else if 0xD000 <= cp < 0xE000 {
      assert r[0] == 0xED;
      assert cp < 0xD800;
      assert r[1] <= 0x9F;
    }
  }

  lemma FourByteWidth(cp: int)
    requires 0x10000 <= cp <= 0x10FFFF
    ensures CharWidth(EncodeScalar(cp)) == 4
  {
    var r := EncodeScalar(cp);
    if cp < 0x40000 {
      assert r[0] == 0xF0;
      assert 0x90 <= r[1];
    } else if cp >= 0x100000 {
      assert r[0] == 0xF4;
      assert r[1] <= 0x8F;
    }
  }

  /** The code point spelled by the UTF8-char at the head of `s` (section 3 of RFC 3629, read backwards). */
  function DecodeChar(s: seq<byte>): int
    requires CharWidth(s) > 0
  {
    var n := CharWidth(s);
    if n == 1 then s[0]
    else if n == 2 then (s[0] as int - 0xC0) * 0x40 + (s[1] as int - 0x80)
    else if n == 3 then ((s[0] as int - 0xE0) * 0x40 + (s[1] as int - 0x80)) * 0x40 + (s[2] as int - 0x80)
    else (((s[0] as int - 0xF0) * 0x40 + (s[1] as int - 0x80)) * 0x40 + (s[2] as int - 0x80)) * 0x40 + (s[3] as int - 0x80)
  }

  /**
   * The converse of `EncodeScalarIsValid`: every character the grammar
   * accepts is the encoding of a scalar value, so no overlong form, no
   * encoded surrogate and nothing above U+10FFFF gets through.
   */
  lemma CharWidthIsEncoding(s: seq<byte>)
    requires CharWidth(s) > 0
    ensures IsScalar(DecodeChar(s))
    ensures s[..CharWidth(s)] == EncodeScalar(DecodeChar(s))
  {
    var n := CharWidth(s);
    if n == 2 {
      TwoByteDecodes(s);
    } else if n == 3 {
      ThreeByteDecodes(s);
    } else if n == 4 {
      FourByteDecodes(s);
    }
  }

  lemma TwoByteDecodes(s: seq<byte>)
    requires CharWidth(s) == 2
    ensures IsScalar(DecodeChar(s))
    ensures s[..2] == EncodeScalar(DecodeChar(s))
  {
    var a: int, b: int := s[0] as int - 0xC0, s[1] as int - 0x80;
    var cp := DecodeChar(s);
    assert cp == a * 0x40 + b && 2 <= a < 0x20;
    assert (a * 0x40 + b) / 0x40 == a && (a * 0x40 + b) % 0x40 == b;
  }

  lemma ThreeByteDecodes(s: seq<byte>)
    requires CharWidth(s) == 3
    ensures IsScalar(DecodeChar(s))
    ensures s[..3] == EncodeScalar(DecodeChar(s))
  {
    var a: int, b: int, c: int := s[0] as int - 0xE0, s[1] as int - 0x80, s[2] as int - 0x80;
    var cp := DecodeChar(s);
    assert cp == (a * 0x40 + b) * 0x40 + c;
    assert cp == a * 0x1000 + (b * 0x40 + c);
    assert cp / 0x40 == a * 0x40 + b && cp % 0x40 == c;
    assert (a * 0x40 + b) / 0x40 == a && (a * 0x40 + b) % 0x40 == b;
    assert (a * 0x1000 + b * 0x40 + c) / 0x1000 == a && (a * 0x1000 + b * 0x40 + c) % 0x1000 == b * 0x40 + c;
    assert 0x800 <= cp < 0x10000;
  }

  lemma FourByteDecodes(s: seq<byte>)
    requires CharWidth(s) == 4
    ensures IsScalar(DecodeChar(s))
    ensures s[..4] == EncodeScalar(DecodeChar(s))
  {
    var a: int, b: int, c: int, d: int := s[0] as int - 0xF0, s[1] as int - 0x80, s[2] as int - 0x80, s[3] as int - 0x80;
    var cp := DecodeChar(s);
    assert cp == ((a * 0x40 + b) * 0x40 + c) * 0x40 + d;
    FourByteDigits(a, b, c, d);
    assert 0x10000 <= cp <= 0x10FFFF;
    var e := EncodeScalar(cp);
    assert e[0] == s[0] && e[1] == s[1] && e[2] == s[2] && e[3] == s[3];
  }

  /** The four base-64 digits of a four-byte character come back out of its code point. */
  lemma FourByteDigits(a: int, b: int, c: int, d: int)
    requires 0 <= a < 8 && 0 <= b < 0x40 && 0 <= c < 0x40 && 0 <= d < 0x40
    ensures var cp := ((a * 0x40 + b) * 0x40 + c) * 0x40 + d;
      cp / 0x40000 == a && (cp / 0x1000) % 0x40 == b && (cp / 0x40) % 0x40 == c && cp % 0x40 == d
  {
    var hi := a * 0x40 + b;
    var cp := (hi * 0x40 + c) * 0x40 + d;
    assert cp == hi * 0x1000 + (c * 0x40 + d);
    assert cp == a * 0x40000 + (b * 0x1000 + c * 0x40 + d);
    assert cp / 0x40 == hi * 0x40 + c && cp % 0x40 == d;
    assert (hi * 0x40 + c) / 0x40 == hi && (hi * 0x40 + c) % 0x40 == c;
    assert cp / 0x1000 == hi;
    assert hi % 0x40 == b;
    assert cp / 0x40000 == a;
  }

  /** An overlong encoding of U+0000 is rejected. */
  lemma OverlongRejected()
    ensures !ValidUtf8([0xC0, 0x80])
  {
  }

  /** The encoding of the surrogate U+D800 is rejected. */
  lemma SurrogateRejected()
    ensures !ValidUtf8([0xED, 0xA0, 0x80])
  {
  }

  /** A code point beyond U+10FFFF is rejected. */
  lemma BeyondRangeRejected()
    ensures !ValidUtf8([0xF4, 0x90, 0x80, 0x80])
  {
  }
}
