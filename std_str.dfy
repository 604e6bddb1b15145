/**
 * The parts of Rust's `str` that the decoder leans on: `trim`, `lines`,
 * `split_once` and `parse::<i32>`, each stated on UTF-8 bytes.
 */
module StdStr {
  import opened Wrappers
  import opened Bytes

  // ---------------------------------------------------------------------------
  // trim

  /** ASCII White_Space characters: tab, LF, VT, FF, CR and space. */
  predicate IsWhitespace(b: byte) {
    0x09 <= b <= 0x0D || b == 0x20
  }

  predicate AllWhitespace(s: seq<byte>) {
    forall i :: 0 <= i < |s| ==> IsWhitespace(s[i])
  }

  /** Drops the leading whitespace: what is removed is whitespace, and what remains does not start with any. */
  function TrimStart(s: seq<byte>): (r: seq<byte>)
    ensures |r| <= |s| && r == s[|s| - |r|..]
    ensures AllWhitespace(s[..|s| - |r|])
    ensures r == [] || !IsWhitespace(r[0])
    decreases |s|
  {
    if |s| > 0 && IsWhitespace(s[0]) then
      var r := TrimStart(s[1..]);
      assert s[|s| - |r|..] == s[1..][|s| - 1 - |r|..];
      assert s[..|s| - |r|] == [s[0]] + s[1..][..|s| - 1 - |r|];
      AllWhitespaceConcat([s[0]], s[1..][..|s| - 1 - |r|]);
      r
    else s
  }

  /** Drops the trailing whitespace: what is removed is whitespace, and what remains does not end with any. */
  function TrimEnd(s: seq<byte>): (r: seq<byte>)
    ensures |r| <= |s| && r == s[..|r|]
    ensures AllWhitespace(s[|r|..])
    ensures r == [] || !IsWhitespace(r[|r| - 1])
    decreases |s|
  {
    if |s| > 0 && IsWhitespace(s[|s| - 1]) then
      var r := TrimEnd(s[..|s| - 1]);
      assert s[|r|..] == s[..|s| - 1][|r|..] + [s[|s| - 1]];
      AllWhitespaceConcat(s[..|s| - 1][|r|..], [s[|s| - 1]]);
      r
    else s
  }

  lemma AllWhitespaceConcat(a: seq<byte>, b: seq<byte>)
    requires AllWhitespace(a) && AllWhitespace(b)
    ensures AllWhitespace(a + b)
  {
    forall i | 0 <= i < |a + b| ensures IsWhitespace((a + b)[i]) {
      if i >= |a| {
        assert (a + b)[i] == b[i - |a|];
      }
    }
  }

  function Trim(s: seq<byte>): seq<byte> {
    TrimEnd(TrimStart(s))
  }

  /** `trim` gives the empty text exactly for all-whitespace input. */
  lemma TrimEmpty(s: seq<byte>)
    ensures Trim(s) == [] <==> AllWhitespace(s)
  {
    var t := TrimStart(s);
    if Trim(s) == [] {
      assert t[0..] == t;
      assert s[..|s|] == s;
    }
  }

  /** Whitespace around a text that neither starts nor ends with whitespace is what `trim` removes. */
  lemma {:induction false} TrimFramed(lead: seq<byte>, x: seq<byte>, trail: seq<byte>)
    requires AllWhitespace(lead) && AllWhitespace(trail)
    requires |x| > 0 && !IsWhitespace(x[0]) && !IsWhitespace(x[|x| - 1])
    ensures Trim(lead + x + trail) == x
  {
    TrimStartFramed(lead, x + trail);
    assert lead + x + trail == lead + (x + trail);
    TrimEndFramed(x, trail);
  }

  lemma {:induction false} TrimStartFramed(lead: seq<byte>, y: seq<byte>)
    requires AllWhitespace(lead)
    requires |y| > 0 && !IsWhitespace(y[0])
    ensures TrimStart(lead + y) == y
    decreases |lead|
  {
    if |lead| > 0 {
      assert (lead + y)[1..] == lead[1..] + y;
      TrimStartFramed(lead[1..], y);
    } else {
      assert lead + y == y;
    }
  }

  lemma {:induction false} TrimEndFramed(y: seq<byte>, trail: seq<byte>)
    requires AllWhitespace(trail)
    requires |y| > 0 && !IsWhitespace(y[|y| - 1])
    ensures TrimEnd(y + trail) == y
    decreases |trail|
  {
    if |trail| > 0 {
      assert (y + trail)[..|y + trail| - 1] == y + trail[..|trail| - 1];
      TrimEndFramed(y, trail[..|trail| - 1]);
    } else {
      assert y + trail == y;
    }
  }

  // ---------------------------------------------------------------------------
  // split_once and lines

  /** The position of the first `b` in `s`. */
  function IndexOf(s: seq<byte>, b: byte): (r: Option<nat>)
    ensures r.Some? ==> r.value < |s| && s[r.value] == b && b !in s[..r.value]
    ensures r.None? <==> b !in s
    decreases |s|
  {
    if |s| == 0 then None
    else if s[0] == b then Some(0)
    else match IndexOf(s[1..], b)
      case None => None
      case Some(i) => Some(i + 1)
  }

  /** `split_once(d)`: the text around the first occurrence of `d`, or nothing when `d` does not occur. */
  function SplitOnce(s: seq<byte>, d: byte): (r: Option<(seq<byte>, seq<byte>)>)
    ensures r.Some? ==> s == r.value.0 + [d] + r.value.1 && d !in r.value.0
    ensures r.None? <==> d !in s
  {
    match IndexOf(s, d)
    case None => None
    case Some(i) =>
      assert s == s[..i] + [d] + s[i + 1..];
      Some((s[..i], s[i + 1..]))
  }

  /** The first `b` is found right after a prefix free of `b`. */
  lemma {:induction false} IndexOfAt(k: seq<byte>, b: byte, v: seq<byte>)
    requires b !in k
    ensures IndexOf(k + [b] + v, b) == Some(|k|)
    decreases |k|
  {
    if |k| > 0 {
      assert (k + [b] + v)[1..] == k[1..] + [b] + v;
      IndexOfAt(k[1..], b, v);
    }
  }

  /** A split point before which `d` does not occur is the one `split_once` finds. */
  lemma SplitOnceAt(k: seq<byte>, d: byte, v: seq<byte>)
    requires d !in k
    ensures SplitOnce(k + [d] + v, d) == Some((k, v))
  {
    var s := k + [d] + v;
    IndexOfAt(k, d, v);
    assert s[..|k|] == k;
    assert s[|k| + 1..] == v;
  }

  /** A line without its terminator: one `\r` in front of the `\n` is dropped with it. */
  function StripCr(line: seq<byte>): seq<byte> {
    if |line| > 0 && line[|line| - 1] == CR then line[..|line| - 1] else line
  }

  /**
   * `lines()`: the text split at each `\n`, every line without its `\n` or
   * `\r\n` terminator; a final terminator does not start another line.
   */
  function Lines(s: seq<byte>): (r: seq<seq<byte>>)
    ensures forall j :: 0 <= j < |r| ==> LF !in r[j]
    ensures |r| == 0 <==> |s| == 0
    decreases |s|
  {
    if |s| == 0 then []
    else match IndexOf(s, LF)
      case None => [s]
      case Some(i) => [StripCr(s[..i])] + Lines(s[i + 1..])
  }

  /** Lines glued back together with `\n`. */
  function Join(ls: seq<seq<byte>>): seq<byte>
    requires |ls| > 0
  {
    if |ls| == 1 then ls[0] else ls[0] + [LF] + Join(ls[1..])
  }

  /** The join starts with the first line's first byte and ends with the last line's last byte. */
  lemma {:induction false} JoinEnds(ls: seq<seq<byte>>)
    requires |ls| > 0 && ls[0] != [] && ls[|ls| - 1] != []
    ensures var j := Join(ls); |j| > 0 && j[0] == ls[0][0] && j[|j| - 1] == ls[|ls| - 1][|ls[|ls| - 1]| - 1]
    decreases |ls|
  {
    if |ls| > 1 {
      var rest := ls[1..];
      assert rest[|rest| - 1] == ls[|ls| - 1];
      if rest[0] == [] {
        JoinNonEmptyEnd(rest);
      } else {
        JoinEnds(rest);
      }
    }
  }

  lemma {:induction false} JoinNonEmptyEnd(ls: seq<seq<byte>>)
    requires |ls| > 0 && ls[|ls| - 1] != []
    ensures var j := Join(ls); |j| > 0 && j[|j| - 1] == ls[|ls| - 1][|ls[|ls| - 1]| - 1]
    decreases |ls|
  {
    if |ls| > 1 {
      var rest := ls[1..];
      assert rest[|rest| - 1] == ls[|ls| - 1];
      JoinNonEmptyEnd(rest);
    }
  }

  /** Lines that hold no terminator, the last of them non-empty, are exactly what `lines()` recovers from their join. */
  lemma {:induction false} LinesOfJoin(ls: seq<seq<byte>>)
    requires |ls| > 0 && ls[|ls| - 1] != []
    requires forall j :: 0 <= j < |ls| ==> LF !in ls[j] && (ls[j] == [] || ls[j][|ls[j]| - 1] != CR)
    ensures Lines(Join(ls)) == ls
    decreases |ls|
  {
    if |ls| == 1 {
      assert IndexOf(ls[0], LF).None?;
    } else {
      var rest := Join(ls[1..]);
      forall j | 0 <= j < |ls[1..]|
        ensures LF !in ls[1..][j] && (ls[1..][j] == [] || ls[1..][j][|ls[1..][j]| - 1] != CR)
      {
        assert ls[1..][j] == ls[j + 1];
      }
      LinesOfJoin(ls[1..]);
      LinesStep(ls[0], rest);
      assert Join(ls) == ls[0] + [LF] + rest;
      assert ls == [ls[0]] + ls[1..];
    }
  }

  /** A line free of `\n` and of a trailing `\r`, then `\n`, is the first of the lines. */
  lemma LinesStep(l: seq<byte>, rest: seq<byte>)
    requires LF !in l && (l == [] || l[|l| - 1] != CR)
    ensures Lines(l + [LF] + rest) == [l] + Lines(rest)
  {
    var s := l + [LF] + rest;
    IndexOfAt(l, LF, rest);
    assert s[..|l|] == l && s[|l| + 1..] == rest;
    assert StripCr(l) == l;
    calc {
      Lines(s);
      [StripCr(s[..|l|])] + Lines(s[|l| + 1..]);
      [l] + Lines(rest);
    }
  }

  /** A `\r\n` terminator is dropped whole: the `\r` in front of the `\n` is not part of the line. */
  lemma LinesCrLf(l: seq<byte>, rest: seq<byte>)
    requires LF !in l
    ensures Lines(l + [CR, LF] + rest) == [l] + Lines(rest)
  {
    var s := l + [CR, LF] + rest;
    assert s == (l + [CR]) + [LF] + rest;
    IndexOfAt(l + [CR], LF, rest);
    assert s[..|l| + 1] == l + [CR];
    assert s[|l| + 2..] == rest;
  }

  /** A `\r` that no `\n` follows stays in the line. */
  lemma LinesKeepLoneCr()
    ensures Lines([0x61, CR]) == [[0x61, CR]]
  {
    assert IndexOf([0x61, CR], LF).None?;
  }

  // ---------------------------------------------------------------------------
  // from_str_radix, and parse::<i32> built on it

  newtype i32 = x: int | -0x8000_0000 <= x < 0x8000_0000

  /** `char::to_digit` on one byte: 0-9, then a-z and A-Z as 10-35; 36 for anything else. */
  function DigitOf(b: byte): (d: nat)
    ensures d <= 36
  {
    if 0x30 <= b <= 0x39 then b - 0x30
    else if 0x61 <= b <= 0x7A then b - 0x61 + 10
    else if 0x41 <= b <= 0x5A then b - 0x41 + 10
    else 36
  }

  predicate AllDigits(s: seq<byte>, radix: nat) {
    forall i :: 0 <= i < |s| ==> DigitOf(s[i]) < radix
  }

  /** The value of a run of digits, most significant first. */
  function DigitsValue(ds: seq<byte>, radix: nat): nat
    requires AllDigits(ds, radix)
    decreases |ds|
  {
    if |ds| == 0 then 0 else DigitsValue(ds[..|ds| - 1], radix) * radix + DigitOf(ds[|ds| - 1])
  }

  /**
   * `from_str_radix` before its range check: a lone sign or an empty text is
   * refused; a leading `+` is skipped; a leading `-` is a sign only for a
   * signed target type; every remaining byte must be a digit of the radix.
   */
  function FromStrRadix(s: seq<byte>, radix: nat, signed: bool): (r: Option<int>)
    ensures r.Some? ==> |s| > 0
    ensures r.Some? ==> AllDigits(s[1..], radix)
    ensures r.Some? ==> DigitOf(s[0]) < radix || s[0] == PLUS || (signed && s[0] == MINUS)
    ensures r.Some? ==> |s| > 1 || DigitOf(s[0]) < radix
    ensures r.Some? && !signed ==> r.value >= 0
  {
    if |s| == 0 || s == [PLUS] || s == [MINUS] then None
    else
      var negative := signed && s[0] == MINUS;
      var digits := if s[0] == PLUS || negative then s[1..] else s;
      if !AllDigits(digits, radix) then None
      else if negative then Some(-(DigitsValue(digits, radix) as int))
      else Some(DigitsValue(digits, radix))
  }

  /**
   * The converse: an optional `+` (or `-` for a signed type) followed by at
   * least one digit of the radix is accepted, with the value of those digits.
   */
  lemma FromStrRadixDigits(sign: seq<byte>, ds: seq<byte>, radix: nat, signed: bool)
    requires 2 <= radix <= 36
    requires sign == [] || sign == [PLUS] || (signed && sign == [MINUS])
    requires |ds| > 0 && AllDigits(ds, radix)
    ensures FromStrRadix(sign + ds, radix, signed)
      == Some(if sign == [MINUS] then -(DigitsValue(ds, radix) as int) else DigitsValue(ds, radix) as int)
  {
    var s := sign + ds;
    if sign == [] {
      assert s == ds;
      assert DigitOf(ds[0]) < radix;
    } else {
      assert s[0] == sign[0] && s[1..] == ds;
    }
  }

  /** `str::parse::<i32>`, that is `i32::from_str_radix(s, 10)`. */
  function ParseI32(s: seq<byte>): Option<i32> {
    match FromStrRadix(s, 10, true)
    case Some(v) => if -0x8000_0000 <= v < 0x8000_0000 then Some(v as i32) else None
    case None => None
  }

  /**
   * `parse::<i32>` accepts every optional sign followed by decimal digits,
   * leading zeros and `-0` included, and gives their value when it fits in
   * an i32; beyond the range it refuses.
   */
  lemma ParseI32Digits(sign: seq<byte>, ds: seq<byte>)
    requires sign == [] || sign == [PLUS] || sign == [MINUS]
    requires |ds| > 0 && forall i :: 0 <= i < |ds| ==> 0x30 <= ds[i] <= 0x39
    ensures AllDigits(ds, 10)
    ensures var v := if sign == [MINUS] then -(DigitsValue(ds, 10) as int) else DigitsValue(ds, 10) as int;
      ParseI32(sign + ds) == if -0x8000_0000 <= v < 0x8000_0000 then Some(v as i32) else None
  {
    FromStrRadixDigits(sign, ds, 10, true);
  }

  /** `u8::from_str_radix(s, 16)`. */
  function U8FromStrRadix16(s: seq<byte>): Option<byte> {
    match FromStrRadix(s, 16, false)
    case Some(v) => if 0 <= v < 256 then Some(v) else None
    case None => None
  }

  /** The decimal text of a natural number, without leading zeros. */
  function FormatNat(n: nat): (r: seq<byte>)
    ensures |r| > 0 && AllDigits(r, 10)
    decreases n
  {
    if n < 10 then [0x30 + n] else FormatNat(n / 10) + [0x30 + n % 10]
  }

  /** `i32::to_string`: a `-` for negative values, then the digits. */
  function FormatI32(n: i32): seq<byte> {
    if n < 0 then [MINUS] + FormatNat(-(n as int)) else FormatNat(n as nat)
  }

  lemma {:induction false} DigitsValueOfFormat(n: nat)
    ensures DigitsValue(FormatNat(n), 10) == n
    decreases n
  {
    if n >= 10 {
      var f := FormatNat(n);
      DigitsValueOfFormat(n / 10);
      assert f[..|f| - 1] == FormatNat(n / 10);
    }
  }

  /** Every i32 survives a trip through its decimal text. */
  lemma ParseFormatI32(n: i32)
    ensures ParseI32(FormatI32(n)) == Some(n)
  {
    var s := FormatI32(n);
    if n < 0 {
      DigitsValueOfFormat(-(n as int));
      assert s[1..] == FormatNat(-(n as int));
    } else {
      DigitsValueOfFormat(n as nat);
      assert DigitOf(s[0]) < 10;
    }
  }

  /** Decimal texts beyond the i32 range are refused, at both ends. */
  lemma ParseI32Overflow(n: nat)
    requires n >= 0x8000_0000
    ensures ParseI32(FormatNat(n)) == None
    ensures ParseI32([MINUS] + FormatNat(n + 1)) == None
  {
    var s := FormatNat(n);
    DigitsValueOfFormat(n);
    assert DigitOf(s[0]) < 10;
    var t := [MINUS] + FormatNat(n + 1);
    DigitsValueOfFormat(n + 1);
    assert t[1..] == FormatNat(n + 1);
  }

  /** Only an optional sign and decimal digits parse; whitespace, a second sign or a lone sign do not. */
  lemma ParseI32Syntax(s: seq<byte>)
    ensures ParseI32(s).Some? ==> |s| > 0 && (s[0] == PLUS || s[0] == MINUS || 0x30 <= s[0] <= 0x39)
    ensures ParseI32(s).Some? ==> forall i :: 1 <= i < |s| ==> 0x30 <= s[i] <= 0x39
    ensures ParseI32(s).Some? ==> |s| > 1 || 0x30 <= s[0] <= 0x39
  {
    if ParseI32(s).Some? {
      forall i | 1 <= i < |s| ensures 0x30 <= s[i] <= 0x39 {
        assert s[i] == s[1..][i - 1];
      }
    }
  }
}
