/**
 * The response decoder of src/config.rs: `unprintf` undoes the daemon's
 * `printf_encode` escaping of one value, `to_map` turns a whole
 * `key=value` response into a map, and `deserialize_str` hands that map to a
 * record's population function.
 */
module ConfigCodec {
  import opened Wrappers
  import opened Bytes
  import opened Utf8
  import opened StdStr

  /** The decoder's error kinds (the Rust variant name keeps its spelling). */
  datatype ConfigError =
    | MissingDelimterEqual
    | InvalidEscape
    | IncompleteEscape
    | NonUtf8Escape
    | SerdeError(msg: seq<byte>)

  /** `serde::de::Error::custom`: every failure raised while populating a record becomes `SerdeError` with its message. */
  function Custom(msg: seq<byte>): (e: ConfigError)
    ensures e.SerdeError? && e.msg == msg
  {
    SerdeError(msg)
  }

  /** The flat map a response decodes to: raw key to decoded value. */
  type StrMap = map<seq<byte>, seq<byte>>

  // ---------------------------------------------------------------------------
  // unprintf

  const LOWER_N: byte := 0x6E
  const LOWER_R: byte := 0x72
  const LOWER_T: byte := 0x74
  const LOWER_E: byte := 0x65
  const LOWER_X: byte := 0x78

  /** `std::str::from_utf8(&hex)` followed by `u8::from_str_radix(_, 16)`; either failing gives nothing. */
  function HexByte(hex: seq<byte>): Option<byte> {
    if !ValidUtf8(hex) then None else U8FromStrRadix16(hex)
  }

  /** One escape sequence: the byte it stands for and how many bytes after the backslash it spans. */
  datatype Escape = Escape(decoded: byte, width: nat)

  /** The escape table, applied to what follows a backslash. */
  function DecodeEscape(rest: seq<byte>): (r: Result<Escape, ConfigError>)
    ensures r.Ok? ==> 1 <= r.value.width <= |rest| && r.value.width <= 3
    ensures r.Err? ==> r.error == IncompleteEscape || r.error == InvalidEscape
  {
    if |rest| == 0 then Err(IncompleteEscape)
    else if rest[0] == LOWER_N then Ok(Escape(LF, 1))
    else if rest[0] == LOWER_R then Ok(Escape(CR, 1))
    else if rest[0] == LOWER_T then Ok(Escape(TAB, 1))
    else if rest[0] == LOWER_E then Ok(Escape(ESC, 1))
    else if rest[0] == LOWER_X then
      if |rest| < 3 then Err(IncompleteEscape)
      else match HexByte(rest[1..3])
        case None => Err(InvalidEscape)
        case Some(b) => Ok(Escape(b, 3))
    else Ok(Escape(rest[0], 1))
  }

  /** `out` in front of a successful result; an error passes through. */
  function Prefixed(out: seq<byte>, r: Result<seq<byte>, ConfigError>): Result<seq<byte>, ConfigError> {
    match r
    case Ok(tail) => Ok(out + tail)
    case Err(e) => Err(e)
  }

  lemma PrefixedAssoc(a: seq<byte>, b: seq<byte>, r: Result<seq<byte>, ConfigError>)
    ensures Prefixed(a, Prefixed(b, r)) == Prefixed(a + b, r)
    ensures Prefixed([], r) == r
  {
    if r.Ok? {
      assert a + (b + r.value) == (a + b) + r.value;
      assert [] + r.value == r.value;
    }
  }

  /**
   * The escape pass of `unprintf`, left to right: the first malformed escape
   * decides the error. It never lengthens the text and only raises the two
   * escape kinds.
   */
  function Unescape(s: seq<byte>): (r: Result<seq<byte>, ConfigError>)
    ensures r.Ok? ==> |r.value| <= |s|
    ensures r.Err? ==> r.error == IncompleteEscape || r.error == InvalidEscape
    decreases |s|
  {
    if |s| == 0 then Ok([])
    else if s[0] != BACKSLASH then Prefixed([s[0]], Unescape(s[1..]))
    else match DecodeEscape(s[1..])
      case Err(e) => Err(e)
      case Ok(esc) => Prefixed([esc.decoded], Unescape(s[1 + esc.width..]))
  }

  /**
   * What `unprintf` returns: the escape pass, then the UTF-8 check of
   * `String::from_utf8`. `NonUtf8Escape` comes only after every escape was
   * well formed; a success is well-formed UTF-8 and no longer than the input.
   */
  function UnprintfSpec(escaped: seq<byte>): (r: Result<seq<byte>, ConfigError>)
    ensures r.Ok? ==> ValidUtf8(r.value) && |r.value| <= |escaped|
    ensures r == Err(NonUtf8Escape) <==> Unescape(escaped).Ok? && !ValidUtf8(Unescape(escaped).value)
    ensures r.Err? && r.error != NonUtf8Escape <==> Unescape(escaped).Err?
    ensures r.Err? ==> r.error in {IncompleteEscape, InvalidEscape, NonUtf8Escape}
  {
    match Unescape(escaped)
    case Err(e) => Err(e)
    case Ok(unescaped) => if ValidUtf8(unescaped) then Ok(unescaped) else Err(NonUtf8Escape)
  }

  /**
   * `unprintf`: pulls bytes from the input one at a time, pushing each
   * decoded byte onto `unescaped`, and returns at the first malformed escape.
   */
  method Unprintf(escaped: seq<byte>) returns (r: Result<seq<byte>, ConfigError>)
    ensures r == UnprintfSpec(escaped)
  {
    var unescaped: seq<byte> := [];
    var i := 0;
    assert escaped[0..] == escaped;
    PrefixedAssoc([], [], Unescape(escaped));
    while i < |escaped|
      invariant 0 <= i <= |escaped|
      invariant Unescape(escaped) == Prefixed(unescaped, Unescape(escaped[i..]))
      decreases |escaped| - i
    {
      ghost var at := i;
      ghost var s := escaped[at..];
      var c := escaped[i];
      i := i + 1;
      if c == BACKSLASH {
        assert s[1..] == escaped[i..];
        if i == |escaped| {
          return Err(IncompleteEscape);
        }
        var d := escaped[i];
        i := i + 1;
        if d == LOWER_N {
          c := LF;
        } else if d == LOWER_R {
          c := CR;
        } else if d == LOWER_T {
          c := TAB;
        } else if d == LOWER_E {
          c := ESC;
        } else if d == LOWER_X {
          if i == |escaped| {
            return Err(IncompleteEscape);
          }
          var h0 := escaped[i];
          i := i + 1;
          if i == |escaped| {
            return Err(IncompleteEscape);
          }
          var h1 := escaped[i];
          i := i + 1;
          assert s[1..][1..3] == [h0, h1];
          var b := HexByte([h0, h1]);
          if b.None? {
            return Err(InvalidEscape);
          }
          c := b.value;
        } else {
          c := d;
        }
        assert s[1 + (i - at - 1)..] == escaped[i..];
      } else {
        assert s[1..] == escaped[i..];
      }
      assert Unescape(s) == Prefixed([c], Unescape(escaped[i..]));
      PrefixedAssoc(unescaped, [c], Unescape(escaped[i..]));
      unescaped := unescaped + [c];
    }
    assert escaped[i..] == [];
    assert Unescape(escaped) == Ok(unescaped + []);
    assert unescaped + [] == unescaped;
    if ValidUtf8(unescaped) {
      r := Ok(unescaped);
    } else {
      r := Err(NonUtf8Escape);
    }
  }

  // ---------------------------------------------------------------------------
  // to_map

  /** One line: the raw text before its first `=` is the key, and the rest, unescaped, the value. */
  function ParseLine(line: seq<byte>): (r: Result<(seq<byte>, seq<byte>), ConfigError>)
    ensures r == Err(MissingDelimterEqual) <==> EQUALS !in line
  {
    match SplitOnce(line, EQUALS)
    case None => Err(MissingDelimterEqual)
    case Some((key, rest)) =>
      match UnprintfSpec(rest)
      case Err(e) => Err(e)
      case Ok(value) => Ok((key, value))
  }

  /** How one line becomes a key and a value; `to_map` uses `ParseLine`. */
  type LineParser = seq<byte> -> Result<(seq<byte>, seq<byte>), ConfigError>

  /**
   * The lines inserted in order into an empty map; the first line that fails
   * ends the build. The line parser is a parameter so that the lemmas about
   * the build hold whatever a line decodes to.
   */
  function BuildMap(lines: seq<seq<byte>>, parse: LineParser): Result<StrMap, ConfigError>
    decreases |lines|
  {
    if |lines| == 0 then Ok(map[])
    else
      var m :- BuildMap(lines[..|lines| - 1], parse);
      var entry :- parse(lines[|lines| - 1]);
      Ok(m[entry.0 := entry.1])
  }

  /** One more line either extends the map built so far or ends the build with that line's error. */
  lemma BuildMapStep(lines: seq<seq<byte>>, i: nat, m: StrMap, parse: LineParser)
    requires i < |lines| && BuildMap(lines[..i], parse) == Ok(m)
    ensures parse(lines[i]).Err? ==> BuildMap(lines[..i + 1], parse) == Err(parse(lines[i]).error)
    ensures parse(lines[i]).Ok? ==>
      BuildMap(lines[..i + 1], parse) == Ok(m[parse(lines[i]).value.0 := parse(lines[i]).value.1])
  {
    assert lines[..i + 1][..i] == lines[..i];
    assert lines[..i + 1][i] == lines[i];
  }

  /** A failed prefix decides the whole build: later lines are never looked at. */
  lemma {:induction false} BuildMapStopsAtError(lines: seq<seq<byte>>, n: nat, parse: LineParser)
    requires n <= |lines| && BuildMap(lines[..n], parse).Err?
    ensures BuildMap(lines, parse) == BuildMap(lines[..n], parse)
    decreases |lines| - n
  {
    if n < |lines| {
      assert lines[..n + 1][..n] == lines[..n];
      BuildMapStopsAtError(lines, n + 1, parse);
    } else {
      assert lines[..n] == lines;
    }
  }

  /** What `to_map` returns for a response. */
  function ToMapSpec(response: seq<byte>): Result<StrMap, ConfigError> {
    BuildMap(Lines(Trim(response)), ParseLine)
  }

  /** `to_map`: trims the response and inserts each line into a map, stopping at the first line that fails. */
  method ToMap(response: seq<byte>) returns (r: Result<StrMap, ConfigError>)
    ensures r == ToMapSpec(response)
  {
    var lines := Lines(Trim(response));
    var m: StrMap := map[];
    for i := 0 to |lines|
      invariant BuildMap(lines[..i], ParseLine) == Ok(m)
    {
      BuildMapStep(lines, i, m, ParseLine);
      var split := SplitOnce(lines[i], EQUALS);
      if split.None? {
        BuildMapStopsAtError(lines, i + 1, ParseLine);
        return Err(MissingDelimterEqual);
      }
      var (k, v) := split.value;
      var value := Unprintf(v);
      if value.Err? {
        BuildMapStopsAtError(lines, i + 1, ParseLine);
        return Err(value.error);
      }
      m := m[k := value.value];
    }
    assert lines[..|lines|] == lines;
    r := Ok(m);
  }

  // ---------------------------------------------------------------------------
  // deserialize_str

  /**
   * `deserialize_str`: the map of the response, handed to a record's
   * population function; an error of `to_map` comes back unchanged.
   */
  function DeserializeStr<T>(response: seq<byte>, populate: StrMap -> Result<T, ConfigError>): (r: Result<T, ConfigError>)
    ensures ToMapSpec(response).Err? ==> r == Err(ToMapSpec(response).error)
    ensures ToMapSpec(response).Ok? ==> r == populate(ToMapSpec(response).value)
  {
    var m :- ToMapSpec(response);
    populate(m)
  }
}
