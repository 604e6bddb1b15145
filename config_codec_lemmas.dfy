/** Properties of the decoder in src/config.rs: the escape table, error precedence, and the map `to_map` builds. */
module ConfigCodecLemmas {
  import opened Wrappers
  import opened Bytes
  import opened Utf8
  import opened StdStr
  import opened ConfigCodec

  // ---------------------------------------------------------------------------
  // The escape pass

  /** An escape reads at most the bytes it spans, so text after it does not change how it decodes. */
  lemma DecodeEscapeExtend(rest: seq<byte>, more: seq<byte>)
    requires DecodeEscape(rest).Ok?
    ensures DecodeEscape(rest + more) == DecodeEscape(rest)
  {
    var t := rest + more;
    assert t[0] == rest[0];
    if rest[0] == LOWER_X {
      assert t[1..3] == rest[1..3];
    }
  }

  /**
   * A text whose escapes are all complete decodes the same in front of any
   * other text: decoding is compositional at such a boundary.
   */
  lemma {:induction false} UnescapeConcat(a: seq<byte>, b: seq<byte>)
    requires Unescape(a).Ok?
    ensures Unescape(a + b) == Prefixed(Unescape(a).value, Unescape(b))
    decreases |a|, 1
  {
    if |a| == 0 {
      assert a + b == b;
      PrefixedAssoc([], [], Unescape(b));
    } else if a[0] != BACKSLASH {
      assert (a + b)[0] == a[0];
      assert (a + b)[1..] == a[1..] + b;
      UnescapeConcat(a[1..], b);
      PrefixedAssoc([a[0]], Unescape(a[1..]).value, Unescape(b));
    } else {
      UnescapeConcatEscape(a, b);
    }
  }

  /** The step of `UnescapeConcat` for an input that starts with an escape. */
  lemma {:induction false} UnescapeConcatEscape(a: seq<byte>, b: seq<byte>)
    requires Unescape(a).Ok? && |a| > 0 && a[0] == BACKSLASH
    ensures Unescape(a + b) == Prefixed(Unescape(a).value, Unescape(b))
    decreases |a|, 0
  {
    var esc := DecodeEscape(a[1..]).value;
    assert (a + b)[0] == BACKSLASH;
    assert (a + b)[1..] == a[1..] + b;
    DecodeEscapeExtend(a[1..], b);
    assert (a + b)[1 + esc.width..] == a[1 + esc.width..] + b;
    UnescapeConcat(a[1 + esc.width..], b);
    PrefixedAssoc([esc.decoded], Unescape(a[1 + esc.width..]).value, Unescape(b));
  }

  /** Without a backslash the escape pass copies its input. */
  lemma {:induction false} UnescapePlain(s: seq<byte>)
    requires BACKSLASH !in s
    ensures Unescape(s) == Ok(s)
    decreases |s|
  {
    if |s| > 0 {
      assert BACKSLASH !in s[1..];
      UnescapePlain(s[1..]);
      assert [s[0]] + s[1..] == s;
    }
  }

  /** `unprintf` returns a text that holds no backslash unchanged. */
  lemma UnprintfPlain(s: seq<byte>)
    requires BACKSLASH !in s && ValidUtf8(s)
    ensures UnprintfSpec(s) == Ok(s)
  {
    UnescapePlain(s);
  }

  /** `\n`, `\r`, `\t` and `\e` stand for LF, CR, TAB and ESC, wherever they occur after complete escapes. */
  lemma ControlEscapes(p: seq<byte>, q: seq<byte>)
    requires Unescape(p).Ok?
    ensures Unescape(p + [BACKSLASH, LOWER_N] + q) == Prefixed(Unescape(p).value + [LF], Unescape(q))
    ensures Unescape(p + [BACKSLASH, LOWER_R] + q) == Prefixed(Unescape(p).value + [CR], Unescape(q))
    ensures Unescape(p + [BACKSLASH, LOWER_T] + q) == Prefixed(Unescape(p).value + [TAB], Unescape(q))
    ensures Unescape(p + [BACKSLASH, LOWER_E] + q) == Prefixed(Unescape(p).value + [ESC], Unescape(q))
  {
    EscapeAfter(p, LOWER_N, q, LF);
    EscapeAfter(p, LOWER_R, q, CR);
    EscapeAfter(p, LOWER_T, q, TAB);
    EscapeAfter(p, LOWER_E, q, ESC);
  }

  /** Any other byte after a backslash stands for itself; `\\` is a backslash. */
  lemma LiteralEscape(p: seq<byte>, c: byte, q: seq<byte>)
    requires Unescape(p).Ok?
    requires c != LOWER_N && c != LOWER_R && c != LOWER_T && c != LOWER_E && c != LOWER_X
    ensures Unescape(p + [BACKSLASH, c] + q) == Prefixed(Unescape(p).value + [c], Unescape(q))
  {
    EscapeAfter(p, c, q, c);
  }

  lemma EscapeAfter(p: seq<byte>, c: byte, q: seq<byte>, decoded: byte)
    requires Unescape(p).Ok?
    requires DecodeEscape([c] + q) == Ok(Escape(decoded, 1))
    ensures Unescape(p + [BACKSLASH, c] + q) == Prefixed(Unescape(p).value + [decoded], Unescape(q))
  {
    var t := [BACKSLASH, c] + q;
    assert t[1..] == [c] + q;
    assert t[2..] == q;
    assert Unescape(t) == Prefixed([decoded], Unescape(q));
    assert p + [BACKSLASH, c] + q == p + t;
    UnescapeConcat(p, t);
    PrefixedAssoc(Unescape(p).value, [decoded], Unescape(q));
  }

  /**
   * `\x` and the next two bytes give the byte `HexByte` reads from them; when
   * it reads none, the whole call fails with `InvalidEscape`, whatever follows.
   */
  lemma HexEscape(p: seq<byte>, h0: byte, h1: byte, q: seq<byte>)
    requires Unescape(p).Ok?
    ensures HexByte([h0, h1]).Some? ==>
      Unescape(p + [BACKSLASH, LOWER_X, h0, h1] + q) == Prefixed(Unescape(p).value + [HexByte([h0, h1]).value], Unescape(q))
    ensures HexByte([h0, h1]).None? ==> Unescape(p + [BACKSLASH, LOWER_X, h0, h1] + q) == Err(InvalidEscape)
  {
    var t := [BACKSLASH, LOWER_X, h0, h1] + q;
    assert t[1..] == [LOWER_X, h0, h1] + q;
    assert t[1..][1..3] == [h0, h1];
    assert t[4..] == q;
    assert p + [BACKSLASH, LOWER_X, h0, h1] + q == p + t;
    UnescapeConcat(p, t);
    if HexByte([h0, h1]).Some? {
      PrefixedAssoc(Unescape(p).value, [HexByte([h0, h1]).value], Unescape(q));
    }
  }

  /** A backslash at the end, or `\x` with fewer than two bytes after it, fails with `IncompleteEscape`. */
  lemma IncompleteEscapes(p: seq<byte>, h: byte)
    requires Unescape(p).Ok?
    ensures Unescape(p + [BACKSLASH]) == Err(IncompleteEscape)
    ensures Unescape(p + [BACKSLASH, LOWER_X]) == Err(IncompleteEscape)
    ensures Unescape(p + [BACKSLASH, LOWER_X, h]) == Err(IncompleteEscape)
  {
    UnescapeConcat(p, [BACKSLASH]);
    assert [BACKSLASH][1..] == [];
    UnescapeConcat(p, [BACKSLASH, LOWER_X]);
    assert [BACKSLASH, LOWER_X][1..] == [LOWER_X];
    UnescapeConcat(p, [BACKSLASH, LOWER_X, h]);
    assert [BACKSLASH, LOWER_X, h][1..] == [LOWER_X, h];
  }

  /** A malformed escape ends `unprintf` with its own kind, before the UTF-8 check of the rest is reached. */
  lemma EscapeErrorWins(p: seq<byte>, bad: seq<byte>, q: seq<byte>)
    requires Unescape(p).Ok? && Unescape(bad).Err?
    requires bad == [BACKSLASH] || bad == [BACKSLASH, LOWER_X] || (|bad| == 4 && bad[..2] == [BACKSLASH, LOWER_X])
    ensures q == [] ==> UnprintfSpec(p + bad) == Err(Unescape(bad).error)
    ensures |bad| == 4 ==> UnprintfSpec(p + bad + q) == Err(InvalidEscape)
  {
    if |bad| == 4 {
      assert bad == [BACKSLASH, LOWER_X, bad[2], bad[3]];
      assert [] + bad + [] == bad;
      HexEscape([], bad[2], bad[3], []);
      HexEscape(p, bad[2], bad[3], q);
    }
    if q == [] {
      UnescapeConcat(p, bad);
    }
  }

  // ---------------------------------------------------------------------------
  // The two hex digits of `\xHH`

  predicate IsHexDigit(b: byte) {
    DigitOf(b) < 16
  }

  /**
   * What `from_utf8` and `u8::from_str_radix(_, 16)` accept in the two bytes
   * after `\x`: two hex digits, or a `+` and one hex digit.
   */
  lemma HexPair(h0: byte, h1: byte)
    ensures HexByte([h0, h1]).Some? <==> IsHexDigit(h1) && (IsHexDigit(h0) || h0 == PLUS)
    ensures IsHexDigit(h0) && IsHexDigit(h1) ==> HexByte([h0, h1]) == Some(DigitOf(h0) * 16 + DigitOf(h1))
    ensures h0 == PLUS && IsHexDigit(h1) ==> HexByte([h0, h1]) == Some(DigitOf(h1))
  {
    var s := [h0, h1];
    if IsHexDigit(h1) && (IsHexDigit(h0) || h0 == PLUS) {
      assert DigitOf(h0) < 16 ==> h0 < 0x80;
      assert IsAscii(s);
      AsciiIsValidUtf8(s);
      if h0 == PLUS {
        assert s[1..] == [h1];
        assert [h1][..0] == [];
        assert DigitsValue([h1], 16) == DigitOf(h1);
        assert FromStrRadix(s, 16, false) == Some(DigitOf(h1));
      } else {
        assert s[..1] == [h0];
        assert [h0][..0] == [];
        assert DigitsValue([h0], 16) == DigitOf(h0);
        assert DigitsValue(s, 16) == DigitOf(h0) * 16 + DigitOf(h1);
        assert FromStrRadix(s, 16, false) == Some(DigitOf(h0) * 16 + DigitOf(h1));
      }
    }
  }

  /** The lower-case hex digit of a value below 16, as `printf("%02x")` writes it. */
  function HexDigitLower(d: nat): (b: byte)
    requires d < 16
    ensures IsHexDigit(b) && DigitOf(b) == d
  {
    if d < 10 then 0x30 + d else 0x61 + d - 10
  }

  /** Every byte written as `\xHH` reads back as itself. */
  lemma HexByteOfEncoding(v: byte)
    ensures HexByte([HexDigitLower(v / 16), HexDigitLower(v % 16)]) == Some(v)
  {
    HexPair(HexDigitLower(v / 16), HexDigitLower(v % 16));
  }

  // ---------------------------------------------------------------------------
  // Round trip with the encoder that `unprintf` undoes

  /**
   * An encoder in the style of the daemon's `printf_encode`: backslash and
   * double quote escaped, ESC, LF, CR, TAB as letter escapes, printable ASCII
   * as is, every other byte as `\xHH` in lower case.
   */
  function EncodeByte(b: byte): (r: seq<byte>)
  {
    if b == QUOTE then [BACKSLASH, QUOTE]
    else if b == BACKSLASH then [BACKSLASH, BACKSLASH]
    else if b == ESC then [BACKSLASH, LOWER_E]
    else if b == LF then [BACKSLASH, LOWER_N]
    else if b == CR then [BACKSLASH, LOWER_R]
    else if b == TAB then [BACKSLASH, LOWER_T]
    else if 32 <= b <= 126 then [b]
    else [BACKSLASH, LOWER_X, HexDigitLower(b / 16), HexDigitLower(b % 16)]
  }

  /** Each byte encoded on its own, the pieces written one after the other. */
  function EncodeAll(data: seq<byte>, enc: byte -> seq<byte>): seq<byte>
    decreases |data|
  {
    if |data| == 0 then [] else enc(data[0]) + EncodeAll(data[1..], enc)
  }

  function PrintfEncode(data: seq<byte>): seq<byte> {
    EncodeAll(data, EncodeByte)
  }

  lemma UnescapeEncodeByte(b: byte)
    ensures Unescape(EncodeByte(b)) == Ok([b])
  {
    var e := EncodeByte(b);
    if |e| == 2 {
      assert e[1..] == [e[1]];
      assert e[2..] == [];
    } else if |e| == 4 {
      HexByteOfEncoding(b);
      assert e[1..][0] == LOWER_X;
      assert e[1..][1..3] == [HexDigitLower(b / 16), HexDigitLower(b % 16)];
      assert DecodeEscape(e[1..]) == Ok(Escape(b, 3));
      assert e[4..] == [];
      assert [b] + [] == [b];
    } else {
      assert e[1..] == [];
    }
  }

  /** The escape pass undoes the encoder on every byte string. */
  lemma {:induction false} UnescapeOfEncoding(data: seq<byte>)
    ensures Unescape(PrintfEncode(data)) == Ok(data)
    decreases |data|
  {
    if |data| > 0 {
      var e, p := EncodeByte(data[0]), PrintfEncode(data[1..]);
      UnescapeEncodeByte(data[0]);
      UnescapeOfEncoding(data[1..]);
      UnescapeOfPieces(e, p, [data[0]], data[1..]);
      assert PrintfEncode(data) == e + p;
      assert [data[0]] + data[1..] == data;
    }
  }

  lemma UnescapeOfPieces(e: seq<byte>, p: seq<byte>, a: seq<byte>, b: seq<byte>)
    requires Unescape(e) == Ok(a) && Unescape(p) == Ok(b)
    ensures Unescape(e + p) == Ok(a + b)
  {
    UnescapeConcat(e, p);
  }

  predicate IsPrintable(b: byte) {
    0x20 <= b <= 0x7E
  }

  /** The encoder writes printable ASCII only, so its output holds no line terminator. */
  lemma {:induction false} PrintfEncodePrintable(data: seq<byte>)
    ensures forall i :: 0 <= i < |PrintfEncode(data)| ==> IsPrintable(PrintfEncode(data)[i])
    decreases |data|
  {
    if |data| > 0 {
      PrintfEncodePrintable(data[1..]);
      var e := EncodeByte(data[0]);
      var r := PrintfEncode(data[1..]);
      assert forall i :: 0 <= i < |e| ==> IsPrintable(e[i]);
      assert forall i :: |e| <= i < |e + r| ==> (e + r)[i] == r[i - |e|];
    }
  }

  /** An encoder that works byte by byte maps a concatenation to the concatenation of the encodings. */
  lemma {:induction false} EncodeAllConcat(a: seq<byte>, b: seq<byte>, enc: byte -> seq<byte>)
    ensures EncodeAll(a + b, enc) == EncodeAll(a, enc) + EncodeAll(b, enc)
    decreases |a|
  {
    if |a| == 0 {
      assert a + b == b;
    } else {
      EncodeAllConcat(a[1..], b, enc);
      assert (a + b)[1..] == a[1..] + b;
    }
  }

  lemma PrintfEncodeConcat(a: seq<byte>, b: seq<byte>)
    ensures PrintfEncode(a + b) == PrintfEncode(a) + PrintfEncode(b)
  {
    EncodeAllConcat(a, b, EncodeByte);
  }

  /** Printable text other than `"` and `\` is written as it is. */
  lemma {:induction false} PrintfEncodePlain(s: seq<byte>)
    requires forall i :: 0 <= i < |s| ==> IsPrintable(s[i]) && s[i] != QUOTE && s[i] != BACKSLASH
    ensures PrintfEncode(s) == s
    decreases |s|
  {
    if |s| > 0 {
      PrintfEncodePlain(s[1..]);
      assert [s[0]] + s[1..] == s;
    }
  }

  /** `unprintf` undoes the encoder on every UTF-8 text. */
  lemma UnprintfOfEncoding(data: seq<byte>)
    requires ValidUtf8(data)
    ensures UnprintfSpec(PrintfEncode(data)) == Ok(data)
  {
    UnescapeOfEncoding(data);
  }

  /** Five escape cases of `unprintf`, on concrete inputs. */
  lemma UnprintfExamples()
    ensures UnprintfSpec([BACKSLASH, LOWER_X]) == Err(IncompleteEscape)
    ensures UnprintfSpec([BACKSLASH, LOWER_X, 0x7A, 0x7A]) == Err(InvalidEscape)
    ensures UnprintfSpec([BACKSLASH, LOWER_X, 0x66, 0x66]) == Err(NonUtf8Escape)
    ensures UnprintfSpec([BACKSLASH, LOWER_X, PLUS, 0x66]) == Ok([0x0F])
    ensures UnprintfSpec([BACKSLASH, BACKSLASH]) == Ok([BACKSLASH])
  {
    IncompleteEscapes([], 0);
    assert [] + [BACKSLASH, LOWER_X] == [BACKSLASH, LOWER_X];
    UnprintfNotHex();
    UnprintfNotUtf8();
    UnprintfSignedHex();
    UnprintfEscapedBackslash();
  }

  lemma UnprintfNotHex()
    ensures UnprintfSpec([BACKSLASH, LOWER_X, 0x7A, 0x7A]) == Err(InvalidEscape)
  {
    HexPair(0x7A, 0x7A);
    HexEscape([], 0x7A, 0x7A, []);
    assert [] + [BACKSLASH, LOWER_X, 0x7A, 0x7A] + [] == [BACKSLASH, LOWER_X, 0x7A, 0x7A];
  }

  lemma UnprintfNotUtf8()
    ensures UnprintfSpec([BACKSLASH, LOWER_X, 0x66, 0x66]) == Err(NonUtf8Escape)
  {
    HexPair(0x66, 0x66);
    HexEscape([], 0x66, 0x66, []);
    assert [] + [BACKSLASH, LOWER_X, 0x66, 0x66] + [] == [BACKSLASH, LOWER_X, 0x66, 0x66];
    assert CharWidth([0xFF]) == 0;
  }

  lemma UnprintfSignedHex()
    ensures UnprintfSpec([BACKSLASH, LOWER_X, PLUS, 0x66]) == Ok([0x0F])
  {
    HexPair(PLUS, 0x66);
    HexEscape([], PLUS, 0x66, []);
    assert [] + [BACKSLASH, LOWER_X, PLUS, 0x66] + [] == [BACKSLASH, LOWER_X, PLUS, 0x66];
    assert ([] + [0x0F]) + [] == [0x0F];
    assert Unescape([BACKSLASH, LOWER_X, PLUS, 0x66]) == Ok([0x0F]);
    assert IsAscii([0x0F]);
    AsciiIsValidUtf8([0x0F]);
  }

  lemma UnprintfEscapedBackslash()
    ensures UnprintfSpec([BACKSLASH, BACKSLASH]) == Ok([BACKSLASH])
  {
    LiteralEscape([], BACKSLASH, []);
    assert [] + [BACKSLASH, BACKSLASH] + [] == [BACKSLASH, BACKSLASH];
    assert ([] + [BACKSLASH]) + [] == [BACKSLASH];
    assert Unescape([BACKSLASH, BACKSLASH]) == Ok([BACKSLASH]);
    assert IsAscii([BACKSLASH]);
    AsciiIsValidUtf8([BACKSLASH]);
  }


  // ---------------------------------------------------------------------------
  // The map built by to_map

  /** A line is split at its first `=`: the key is the raw text before it, the rest (which may hold `=`) is unescaped. */
  lemma ParseLineAt(key: seq<byte>, rest: seq<byte>)
    requires EQUALS !in key
    ensures UnprintfSpec(rest).Ok? ==> ParseLine(key + [EQUALS] + rest) == Ok((key, UnprintfSpec(rest).value))
    ensures UnprintfSpec(rest).Err? ==> ParseLine(key + [EQUALS] + rest) == Err(UnprintfSpec(rest).error)
  {
    SplitOnceAt(key, EQUALS, rest);
  }

  /** The first line that fails decides the error of the whole build. */
  lemma {:induction false} BuildMapFirstError(lines: seq<seq<byte>>, j: nat, parse: LineParser)
    requires j < |lines| && parse(lines[j]).Err?
    requires forall i :: 0 <= i < j ==> parse(lines[i]).Ok?
    ensures BuildMap(lines, parse) == Err(parse(lines[j]).error)
  {
    BuildMapAllParse(lines[..j], parse);
    assert forall i :: 0 <= i < j ==> lines[..j][i] == lines[i];
    var m := BuildMap(lines[..j], parse).value;
    BuildMapStep(lines, j, m, parse);
    BuildMapStopsAtError(lines, j + 1, parse);
  }

  /** The build succeeds exactly when every line parses. */
  lemma {:induction false} BuildMapAllParse(lines: seq<seq<byte>>, parse: LineParser)
    ensures BuildMap(lines, parse).Ok? <==> forall j :: 0 <= j < |lines| ==> parse(lines[j]).Ok?
    decreases |lines|
  {
    if |lines| > 0 {
      var init := lines[..|lines| - 1];
      BuildMapAllParse(init, parse);
      assert forall j :: 0 <= j < |init| ==> init[j] == lines[j];
    }
  }

  predicate HasKey(line: seq<byte>, k: seq<byte>, parse: LineParser) {
    parse(line).Ok? && parse(line).value.0 == k
  }

  /** `v` is the value of the last line that carries the key `k`. */
  predicate LastValueIs(lines: seq<seq<byte>>, k: seq<byte>, v: seq<byte>, parse: LineParser) {
    exists j :: 0 <= j < |lines| && parse(lines[j]) == Ok((k, v)) &&
      forall i :: j < i < |lines| ==> !HasKey(lines[i], k, parse)
  }

  lemma LastValueAtEnd(lines: seq<seq<byte>>, k: seq<byte>, v: seq<byte>, parse: LineParser)
    requires |lines| > 0 && parse(lines[|lines| - 1]) == Ok((k, v))
    ensures LastValueIs(lines, k, v, parse)
  {
    var j := |lines| - 1;
    assert parse(lines[j]) == Ok((k, v));
  }

  lemma LastValueExtend(lines: seq<seq<byte>>, k: seq<byte>, v: seq<byte>, parse: LineParser)
    requires |lines| > 0 && LastValueIs(lines[..|lines| - 1], k, v, parse)
    requires !HasKey(lines[|lines| - 1], k, parse)
    ensures LastValueIs(lines, k, v, parse)
  {
    var n := |lines| - 1;
    var init := lines[..n];
    var j :| 0 <= j < n && parse(init[j]) == Ok((k, v)) &&
      forall i :: j < i < n ==> !HasKey(init[i], k, parse);
    assert init[j] == lines[j];
    forall i | j < i < |lines|
      ensures !HasKey(lines[i], k, parse)
    {
      if i < n {
        assert init[i] == lines[i];
      }
    }
  }

  /** Every line of a successful build is a key of the map. */
  lemma {:induction false} BuildMapKeys(lines: seq<seq<byte>>, m: StrMap, parse: LineParser)
    requires BuildMap(lines, parse) == Ok(m)
    ensures forall j :: 0 <= j < |lines| ==> parse(lines[j]).Ok? && parse(lines[j]).value.0 in m
    decreases |lines|
  {
    if |lines| > 0 {
      var n := |lines| - 1;
      var init := lines[..n];
      var m0 := BuildMap(init, parse).value;
      var last := parse(lines[n]);
      assert last.Ok? && m == m0[last.value.0 := last.value.1];
      BuildMapKeys(init, m0, parse);
      forall j | 0 <= j < n
        ensures parse(lines[j]).Ok? && parse(lines[j]).value.0 in m
      {
        assert init[j] == lines[j];
      }
    }
  }

  /**
   * Last write wins: every key of the map comes from a line, and holds the
   * value of the last line that carries it.
   */
  lemma {:induction false} BuildMapLastWins(lines: seq<seq<byte>>, m: StrMap, parse: LineParser)
    requires BuildMap(lines, parse) == Ok(m)
    ensures forall k :: k in m ==> LastValueIs(lines, k, m[k], parse)
    decreases |lines|
  {
    if |lines| > 0 {
      var n := |lines| - 1;
      var init := lines[..n];
      var m0 := BuildMap(init, parse).value;
      var entry := parse(lines[n]).value;
      assert m == m0[entry.0 := entry.1];
      BuildMapLastWins(init, m0, parse);
      forall k | k in m
        ensures LastValueIs(lines, k, m[k], parse)
      {
        if k == entry.0 {
          LastValueAtEnd(lines, k, m[k], parse);
        } else {
          LastValueExtend(lines, k, m[k], parse);
        }
      }
    }
  }

  /** An empty or all-whitespace response gives the empty map. */
  lemma ToMapBlankResponse(response: seq<byte>)
    requires AllWhitespace(response)
    ensures ToMapSpec(response) == Ok(map[])
  {
    TrimEmpty(response);
  }

  lemma JoinAroundEmptyLine(x: seq<byte>, y: seq<byte>)
    ensures Join([x, [], y]) == x + [LF, LF] + y
  {
    var ls := [x, [], y];
    assert ls[1..] == [[], y] && ls[1..][1..] == [y];
    assert Join([[], y]) == [LF] + y;
  }

  lemma TrimAroundEmptyLine(x: seq<byte>, y: seq<byte>)
    requires x != [] && !IsWhitespace(x[0])
    requires y != [] && !IsWhitespace(y[|y| - 1])
    ensures Trim(x + [LF, LF] + y) == x + [LF, LF] + y
  {
    var s := x + [LF, LF] + y;
    assert s[0] == x[0] && s[|s| - 1] == y[|y| - 1];
    TrimFramed([], s, []);
    assert [] + s + [] == s;
  }

  lemma LinesAroundEmptyLine(x: seq<byte>, y: seq<byte>)
    requires x != [] && LF !in x && x[|x| - 1] != CR
    requires y != [] && LF !in y && y[|y| - 1] != CR
    ensures Lines(x + [LF, LF] + y) == [x, [], y]
  {
    var ls := [x, [], y];
    JoinAroundEmptyLine(x, y);
    forall j | 0 <= j < |ls|
      ensures LF !in ls[j] && (ls[j] == [] || ls[j][|ls[j]| - 1] != CR)
    {
      if j == 0 {
        assert ls[j] == x;
      } else if j == 1 {
        assert ls[j] == [];
      } else {
        assert ls[j] == y;
      }
    }
    LinesOfJoin(ls);
  }

  /**
   * Blank lines are not skipped: an empty line between two others has no `=`,
   * so once the line before it parses the whole response fails.
   */
  lemma BuildMapEmptySecondLine(x: seq<byte>, y: seq<byte>)
    requires ParseLine(x).Ok?
    ensures BuildMap([x, [], y], ParseLine) == Err(MissingDelimterEqual)
  {
    var ls := [x, [], y];
    assert ls[1] == [] && EQUALS !in ls[1];
    forall i | 0 <= i < 1
      ensures ParseLine(ls[i]).Ok?
    {
      assert ls[i] == x;
    }
    BuildMapFirstError(ls, 1, ParseLine);
  }

  lemma ToMapEmptyInteriorLine(x: seq<byte>, y: seq<byte>)
    requires x != [] && !IsWhitespace(x[0]) && LF !in x && x[|x| - 1] != CR
    requires y != [] && !IsWhitespace(y[|y| - 1]) && LF !in y
    requires ParseLine(x).Ok?
    ensures ToMapSpec(x + [LF, LF] + y) == Err(MissingDelimterEqual)
  {
    var s := x + [LF, LF] + y;
    calc {
      ToMapSpec(s);
      BuildMap(Lines(Trim(s)), ParseLine);
      { TrimAroundEmptyLine(x, y); }
      BuildMap(Lines(s), ParseLine);
      { LinesAroundEmptyLine(x, y); }
      BuildMap([x, [], y], ParseLine);
      { BuildMapEmptySecondLine(x, y); }
      Err(MissingDelimterEqual);
    }
  }


  // ---------------------------------------------------------------------------
  // A response written line by line

  /** The line `key=value` with the value written by the encoder. */
  function EntryLine(key: seq<byte>, value: seq<byte>): seq<byte> {
    key + [EQUALS] + PrintfEncode(value)
  }

  function EntryLines(keys: seq<seq<byte>>, values: seq<seq<byte>>): (ls: seq<seq<byte>>)
    requires |keys| == |values|
    ensures |ls| == |keys| && forall j :: 0 <= j < |ls| ==> ls[j] == EntryLine(keys[j], values[j])
  {
    seq(|keys|, j requires 0 <= j < |keys| => EntryLine(keys[j], values[j]))
  }

  /** The encoded line is recovered by `ParseLine`, and holds neither `\n` nor a trailing `\r`. */
  lemma EntryLineParses(key: seq<byte>, value: seq<byte>)
    requires EQUALS !in key && LF !in key && ValidUtf8(value)
    ensures ParseLine(EntryLine(key, value)) == Ok((key, value))
    ensures LF !in EntryLine(key, value)
    ensures var l := EntryLine(key, value); l != [] && l[|l| - 1] != CR
  {
    var e := PrintfEncode(value);
    var l := EntryLine(key, value);
    UnprintfOfEncoding(value);
    ParseLineAt(key, e);
    PrintfEncodePrintable(value);
    forall i | 0 <= i < |l|
      ensures l[i] != LF
    {
      if i < |key| {
        assert l[i] == key[i];
      } else if i > |key| {
        assert l[i] == e[i - |key| - 1];
      }
    }
    if e != [] {
      assert l[|l| - 1] == e[|e| - 1];
    }
  }

  /** Lines that each parse to their own key, all keys distinct, build the map from each key to its value. */
  lemma BuildMapOfDistinctKeys(ls: seq<seq<byte>>, keys: seq<seq<byte>>, values: seq<seq<byte>>, parse: LineParser)
    requires |ls| == |keys| == |values|
    requires forall j :: 0 <= j < |ls| ==> parse(ls[j]) == Ok((keys[j], values[j]))
    requires forall i, j :: 0 <= i < j < |keys| ==> keys[i] != keys[j]
    ensures BuildMap(ls, parse).Ok?
    ensures forall k :: k in BuildMap(ls, parse).value <==> k in keys
    ensures forall j :: 0 <= j < |keys| ==> keys[j] in BuildMap(ls, parse).value && BuildMap(ls, parse).value[keys[j]] == values[j]
  {
    BuildMapAllParse(ls, parse);
    var m := BuildMap(ls, parse).value;
    BuildMapKeys(ls, m, parse);
    BuildMapLastWins(ls, m, parse);
    DistinctKeysDomain(ls, keys, values, m, parse);
    DistinctKeysValues(ls, keys, values, m, parse);
  }

  /** With distinct keys, every key of the map is the key of some line. */
  lemma DistinctKeysDomain(ls: seq<seq<byte>>, keys: seq<seq<byte>>, values: seq<seq<byte>>, m: StrMap, parse: LineParser)
    requires |ls| == |keys| == |values|
    requires forall j :: 0 <= j < |ls| ==> parse(ls[j]) == Ok((keys[j], values[j]))
    requires forall k :: k in m ==> LastValueIs(ls, k, m[k], parse)
    ensures forall k :: k in m ==> k in keys
  {
    forall k | k in m
      ensures k in keys
    {
      assert LastValueIs(ls, k, m[k], parse);
      var j :| 0 <= j < |ls| && parse(ls[j]) == Ok((k, m[k])) &&
        forall i :: j < i < |ls| ==> !HasKey(ls[i], k, parse);
      assert keys[j] == k;
    }
  }

  /** With distinct keys, the map holds each line's value under that line's key. */
  lemma DistinctKeysValues(ls: seq<seq<byte>>, keys: seq<seq<byte>>, values: seq<seq<byte>>, m: StrMap, parse: LineParser)
    requires |ls| == |keys| == |values|
    requires forall j :: 0 <= j < |ls| ==> parse(ls[j]) == Ok((keys[j], values[j]))
    requires forall i, j :: 0 <= i < j < |keys| ==> keys[i] != keys[j]
    requires forall j :: 0 <= j < |ls| ==> parse(ls[j]).Ok? && parse(ls[j]).value.0 in m
    requires forall k :: k in m ==> LastValueIs(ls, k, m[k], parse)
    ensures forall j :: 0 <= j < |keys| ==> keys[j] in m && m[keys[j]] == values[j]
  {
    forall j | 0 <= j < |keys|
      ensures keys[j] in m && m[keys[j]] == values[j]
    {
      assert parse(ls[j]).value.0 == keys[j];
      assert LastValueIs(ls, keys[j], m[keys[j]], parse);
      var i :| 0 <= i < |ls| && parse(ls[i]) == Ok((keys[j], m[keys[j]])) &&
        forall i' :: i < i' < |ls| ==> !HasKey(ls[i'], keys[j], parse);
      assert keys[i] == keys[j];
    }
  }

  /** The encoded lines, joined and wrapped in whitespace, are exactly what `to_map` walks over, and each parses. */
  lemma EntryLinesOfResponse(ls: seq<seq<byte>>, keys: seq<seq<byte>>, values: seq<seq<byte>>, lead: seq<byte>, trail: seq<byte>)
    requires |ls| == |keys| == |values| > 0
    requires forall j :: 0 <= j < |ls| ==> ls[j] == EntryLine(keys[j], values[j])
    requires forall j :: 0 <= j < |keys| ==> EQUALS !in keys[j] && LF !in keys[j]
    requires forall j :: 0 <= j < |values| ==> ValidUtf8(values[j])
    requires keys[0] != [] && !IsWhitespace(keys[0][0])
    requires var l := ls[|ls| - 1]; l != [] && !IsWhitespace(l[|l| - 1])
    requires AllWhitespace(lead) && AllWhitespace(trail)
    ensures Lines(Trim(lead + Join(ls) + trail)) == ls
    ensures forall j :: 0 <= j < |ls| ==> ParseLine(ls[j]) == Ok((keys[j], values[j]))
  {
    forall j | 0 <= j < |ls|
      ensures ParseLine(ls[j]) == Ok((keys[j], values[j]))
      ensures LF !in ls[j] && ls[j] != [] && ls[j][|ls[j]| - 1] != CR
    {
      EntryLineParses(keys[j], values[j]);
    }
    assert ls[0][0] == keys[0][0];
    JoinEnds(ls);
    TrimFramed(lead, Join(ls), trail);
    LinesOfJoin(ls);
  }

  /**
   * A response made of `key=value` lines with distinct keys, in any
   * surrounding whitespace, decodes to the map from each key to its value.
   */
  lemma ToMapOfEntries(ls: seq<seq<byte>>, keys: seq<seq<byte>>, values: seq<seq<byte>>, lead: seq<byte>, trail: seq<byte>)
    requires |ls| == |keys| == |values| > 0
    requires forall j :: 0 <= j < |ls| ==> ls[j] == EntryLine(keys[j], values[j])
    requires forall j :: 0 <= j < |keys| ==> EQUALS !in keys[j] && LF !in keys[j]
    requires forall j :: 0 <= j < |values| ==> ValidUtf8(values[j])
    requires forall i, j :: 0 <= i < j < |keys| ==> keys[i] != keys[j]
    requires keys[0] != [] && !IsWhitespace(keys[0][0])
    requires var l := ls[|ls| - 1]; l != [] && !IsWhitespace(l[|l| - 1])
    requires AllWhitespace(lead) && AllWhitespace(trail)
    ensures ToMapSpec(lead + Join(ls) + trail).Ok?
    ensures var m := ToMapSpec(lead + Join(ls) + trail).value;
      && (forall k :: k in m <==> k in keys)
      && (forall j :: 0 <= j < |keys| ==> keys[j] in m && m[keys[j]] == values[j])
  {
    EntryLinesOfResponse(ls, keys, values, lead, trail);
    BuildMapOfDistinctKeys(ls, keys, values, ParseLine);
  }
}
