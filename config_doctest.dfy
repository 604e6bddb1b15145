/**
 * The example in the documentation of `Config::from_response`: a response as
 * an access point sends it, with an escaped SSID and a key that names no
 * field, decodes to the expected configuration.
 */
module ConfigDoctest {
  import opened Wrappers
  import opened Bytes
  import opened Utf8
  import opened StdStr
  import opened ConfigCodec
  import opened ConfigCodecLemmas
  import opened ApTypes
  import opened ApTypesLemmas

  /** U+00AF MACRON in UTF-8. */
  const MACRON: seq<byte> := [0xC2, 0xAF]

  /** U+30C4 KATAKANA LETTER TU in UTF-8. */
  const KATAKANA_TU: seq<byte> := [0xE3, 0x83, 0x84]

  /** The text `¯\_(ツ)_/¯` in UTF-8. */
  const SHRUG: seq<byte> := MACRON + Ascii("\\_(") + KATAKANA_TU + Ascii(")_/") + MACRON

  /** The text the encoder writes for `SHRUG`. */
  const SHRUG_TEXT: string := "\\xc2\\xaf\\\\_(\\xe3\\x83\\x84)_/\\xc2\\xaf"

  /** The lines of the response, as the access point writes them. */
  const DOC_LINES: seq<seq<byte>> := [
    Ascii("bssid=e0:91:f5:7d:11:c0"),
    Ascii("ssid=" + SHRUG_TEXT),
    Ascii("wps_state=enabled"),
    Ascii("wpa=12"),
    Ascii("group_cipher=CCMP"),
    Ascii("key_mgmt=WPA2-PSK"),
    Ascii("wpa_state=COMPLETED"),
    Ascii("rsn_pairwise_cipher=foo"),
    Ascii("wpa_pairwise_cipher=bar")]

  /** The response: the lines between a leading and a trailing line break. */
  const DOC_RESPONSE: seq<byte> := [LF] + Join(DOC_LINES) + [LF]

  const WPA_STATE := FieldName("wpa_state")

  const DOC_KEYS: seq<seq<byte>> :=
    [BSSID, SSID, WPS_STATE, WPA, GROUP_CIPHER, KEY_MGMT, WPA_STATE, RSN_PAIRWISE_CIPHER, WPA_PAIRWISE_CIPHER]

  const DOC_VALUES: seq<seq<byte>> := [
    Ascii("e0:91:f5:7d:11:c0"), SHRUG, Ascii("enabled"), Ascii("12"), Ascii("CCMP"),
    Ascii("WPA2-PSK"), Ascii("COMPLETED"), Ascii("foo"), Ascii("bar")]

  lemma ShrugIsText()
    ensures ValidUtf8(SHRUG)
  {
    EncodeScalarIsValid(0xAF);
    assert EncodeScalar(0xAF) == MACRON;
    EncodeScalarIsValid(0x30C4);
    assert EncodeScalar(0x30C4) == KATAKANA_TU;
    assert IsAscii(Ascii("\\_("));
    AsciiIsValidUtf8(Ascii("\\_("));
    assert IsAscii(Ascii(")_/"));
    AsciiIsValidUtf8(Ascii(")_/"));
    ValidUtf8Concat(MACRON, Ascii("\\_("));
    ValidUtf8Concat(MACRON + Ascii("\\_("), KATAKANA_TU);
    ValidUtf8Concat(MACRON + Ascii("\\_(") + KATAKANA_TU, Ascii(")_/"));
    ValidUtf8Concat(MACRON + Ascii("\\_(") + KATAKANA_TU + Ascii(")_/"), MACRON);
  }

  lemma EncodeMacron()
    ensures PrintfEncode(MACRON) == Ascii("\\xc2\\xaf")
  {
    PrintfEncodeConcat([0xC2], [0xAF]);
    assert MACRON == [0xC2] + [0xAF];
  }

  lemma EncodeKatakanaTu()
    ensures PrintfEncode(KATAKANA_TU) == Ascii("\\xe3\\x83\\x84")
  {
    PrintfEncodeConcat([0xE3], [0x83, 0x84]);
    PrintfEncodeConcat([0x83], [0x84]);
    assert KATAKANA_TU == [0xE3] + ([0x83] + [0x84]);
    assert [0x83, 0x84] == [0x83] + [0x84];
  }

  /** The encoder of five pieces in a row is the five encodings in a row. */
  lemma EncodeFive(a: seq<byte>, b: seq<byte>, c: seq<byte>, d: seq<byte>, e: seq<byte>,
                   ea: seq<byte>, eb: seq<byte>, ec: seq<byte>, ed: seq<byte>, ee: seq<byte>)
    requires PrintfEncode(a) == ea && PrintfEncode(b) == eb && PrintfEncode(c) == ec
    requires PrintfEncode(d) == ed && PrintfEncode(e) == ee
    ensures PrintfEncode(a + b + c + d + e) == ea + eb + ec + ed + ee
  {
    PrintfEncodeConcat(a + b + c + d, e);
    PrintfEncodeConcat(a + b + c, d);
    PrintfEncodeConcat(a + b, c);
    PrintfEncodeConcat(a, b);
  }

  lemma EncodeShrugPieces()
    ensures PrintfEncode(SHRUG)
         == Ascii("\\xc2\\xaf") + ([BACKSLASH, BACKSLASH] + Ascii("_(")) + Ascii("\\xe3\\x83\\x84") + Ascii(")_/") + Ascii("\\xc2\\xaf")
  {
    EncodeMacron();
    EncodeKatakanaTu();
    EncodeBackslashPiece();
    EncodeClosingPiece();
    EncodeFive(MACRON, Ascii("\\_("), KATAKANA_TU, Ascii(")_/"), MACRON,
               Ascii("\\xc2\\xaf"), [BACKSLASH, BACKSLASH] + Ascii("_("), Ascii("\\xe3\\x83\\x84"), Ascii(")_/"), Ascii("\\xc2\\xaf"));
  }

  lemma EncodeClosingPiece()
    ensures PrintfEncode(Ascii(")_/")) == Ascii(")_/")
  {
    assert Ascii(")_/") == [0x29, 0x5F, 0x2F];
    PrintfEncodePlain([0x29, 0x5F, 0x2F]);
  }

  lemma EncodeBackslashPiece()
    ensures PrintfEncode(Ascii("\\_(")) == [BACKSLASH, BACKSLASH] + Ascii("_(")
  {
    PrintfEncodeConcat([BACKSLASH], Ascii("_("));
    assert Ascii("\\_(") == [BACKSLASH] + Ascii("_(");
    assert Ascii("_(") == [0x5F, 0x28];
    PrintfEncodePlain([0x5F, 0x28]);
  }

  lemma ShrugTextPieces()
    ensures Ascii(SHRUG_TEXT)
         == Ascii("\\xc2\\xaf") + Ascii("\\\\_(") + Ascii("\\xe3\\x83\\x84") + Ascii(")_/") + Ascii("\\xc2\\xaf")
  {
    assert SHRUG_TEXT
        == "\\xc2\\xaf" + "\\\\_(" + "\\xe3\\x83\\x84" + ")_/" + "\\xc2\\xaf";
    AsciiConcat("\\xc2\\xaf" + "\\\\_(" + "\\xe3\\x83\\x84" + ")_/", "\\xc2\\xaf");
    AsciiConcat("\\xc2\\xaf" + "\\\\_(" + "\\xe3\\x83\\x84", ")_/");
    AsciiConcat("\\xc2\\xaf" + "\\\\_(", "\\xe3\\x83\\x84");
    AsciiConcat("\\xc2\\xaf", "\\\\_(");
  }

  /** The SSID line carries exactly the encoder's text for `¯\_(ツ)_/¯`. */
  lemma EncodeShrug()
    ensures PrintfEncode(SHRUG) == Ascii(SHRUG_TEXT)
  {
    EncodeShrugPieces();
    ShrugTextPieces();
    EscapedBackslashText();
  }

  lemma EscapedBackslashText()
    ensures Ascii("\\\\_(") == [BACKSLASH, BACKSLASH] + Ascii("_(")
  {
    assert Ascii("\\\\_(") == [0x5C, 0x5C, 0x5F, 0x28];
  }

  /** A line is the key, `=`, and the text the encoder writes for the value. */
  lemma EncodedLine(key: string, text: string, value: seq<byte>)
    requires PrintfEncode(value) == Ascii(text)
    ensures Ascii(key + "=" + text) == EntryLine(FieldName(key), value)
  {
    AsciiConcat(key + "=", text);
    AsciiConcat(key, "=");
  }

  /** A line whose value needs no escaping is the key, `=`, and the value as it is. */
  lemma PlainLine(key: string, value: string)
    requires forall i :: 0 <= i < |value| ==> ' ' <= value[i] <= '~' && value[i] != '"' && value[i] != '\\'
    ensures Ascii(key + "=" + value) == EntryLine(FieldName(key), Ascii(value))
  {
    PrintfEncodePlain(Ascii(value));
    EncodedLine(key, value, Ascii(value));
  }

  lemma SsidLine()
    ensures Ascii("ssid=" + SHRUG_TEXT) == EntryLine(SSID, SHRUG)
  {
    EncodeShrug();
    EncodedLine("ssid", SHRUG_TEXT, SHRUG);
    assert "ssid=" + SHRUG_TEXT == "ssid" + "=" + SHRUG_TEXT;
  }

  lemma BssidLine()
    ensures Ascii("bssid=e0:91:f5:7d:11:c0") == EntryLine(BSSID, Ascii("e0:91:f5:7d:11:c0"))
  {
    PlainLine("bssid", "e0:91:f5:7d:11:c0");
    assert "bssid=e0:91:f5:7d:11:c0" == "bssid" + "=" + "e0:91:f5:7d:11:c0";
  }

  lemma WpsStateLine()
    ensures Ascii("wps_state=enabled") == EntryLine(WPS_STATE, Ascii("enabled"))
  {
    PlainLine("wps_state", "enabled");
    assert "wps_state=enabled" == "wps_state" + "=" + "enabled";
  }

  lemma WpaLine()
    ensures Ascii("wpa=12") == EntryLine(WPA, Ascii("12"))
  {
    PlainLine("wpa", "12");
    assert "wpa=12" == "wpa" + "=" + "12";
  }

  lemma GroupCipherLine()
    ensures Ascii("group_cipher=CCMP") == EntryLine(GROUP_CIPHER, Ascii("CCMP"))
  {
    PlainLine("group_cipher", "CCMP");
    assert "group_cipher=CCMP" == "group_cipher" + "=" + "CCMP";
  }

  lemma KeyMgmtLine()
    ensures Ascii("key_mgmt=WPA2-PSK") == EntryLine(KEY_MGMT, Ascii("WPA2-PSK"))
  {
    PlainLine("key_mgmt", "WPA2-PSK");
    assert "key_mgmt=WPA2-PSK" == "key_mgmt" + "=" + "WPA2-PSK";
  }

  lemma WpaStateLine()
    ensures Ascii("wpa_state=COMPLETED") == EntryLine(WPA_STATE, Ascii("COMPLETED"))
  {
    PlainLine("wpa_state", "COMPLETED");
    assert "wpa_state=COMPLETED" == "wpa_state" + "=" + "COMPLETED";
  }

  lemma RsnPairwiseCipherLine()
    ensures Ascii("rsn_pairwise_cipher=foo") == EntryLine(RSN_PAIRWISE_CIPHER, Ascii("foo"))
  {
    PlainLine("rsn_pairwise_cipher", "foo");
    assert "rsn_pairwise_cipher=foo" == "rsn_pairwise_cipher" + "=" + "foo";
  }

  lemma WpaPairwiseCipherLine()
    ensures Ascii("wpa_pairwise_cipher=bar") == EntryLine(WPA_PAIRWISE_CIPHER, Ascii("bar"))
  {
    PlainLine("wpa_pairwise_cipher", "bar");
    assert "wpa_pairwise_cipher=bar" == "wpa_pairwise_cipher" + "=" + "bar";
  }

  lemma DocLine0()
    ensures DOC_LINES[0] == EntryLine(DOC_KEYS[0], DOC_VALUES[0])
  {
    BssidLine();
  }

  lemma DocLine1()
    ensures DOC_LINES[1] == EntryLine(DOC_KEYS[1], DOC_VALUES[1])
  {
    SsidLine();
  }

  lemma DocLine2()
    ensures DOC_LINES[2] == EntryLine(DOC_KEYS[2], DOC_VALUES[2])
  {
    WpsStateLine();
  }

  lemma DocLine3()
    ensures DOC_LINES[3] == EntryLine(DOC_KEYS[3], DOC_VALUES[3])
  {
    WpaLine();
  }

  lemma DocLine4()
    ensures DOC_LINES[4] == EntryLine(DOC_KEYS[4], DOC_VALUES[4])
  {
    GroupCipherLine();
  }

  lemma DocLine5()
    ensures DOC_LINES[5] == EntryLine(DOC_KEYS[5], DOC_VALUES[5])
  {
    KeyMgmtLine();
  }

  lemma DocLine6()
    ensures DOC_LINES[6] == EntryLine(DOC_KEYS[6], DOC_VALUES[6])
  {
    WpaStateLine();
  }

  lemma DocLine7()
    ensures DOC_LINES[7] == EntryLine(DOC_KEYS[7], DOC_VALUES[7])
  {
    RsnPairwiseCipherLine();
  }

  lemma DocLine8()
    ensures DOC_LINES[8] == EntryLine(DOC_KEYS[8], DOC_VALUES[8])
  {
    WpaPairwiseCipherLine();
  }

  /** Each line of the response is a key, `=`, and the encoder's text for its value. */
  lemma DocLinesAreEntries()
    ensures forall j :: 0 <= j < |DOC_LINES| ==> DOC_LINES[j] == EntryLine(DOC_KEYS[j], DOC_VALUES[j])
  {
    forall j | 0 <= j < |DOC_LINES|
      ensures DOC_LINES[j] == EntryLine(DOC_KEYS[j], DOC_VALUES[j])
    {
      if j == 0 {
        DocLine0();
      } else if j == 1 {
        DocLine1();
      } else if j == 2 {
        DocLine2();
      } else if j == 3 {
        DocLine3();
      } else if j == 4 {
        DocLine4();
      } else if j == 5 {
        DocLine5();
      } else if j == 6 {
        DocLine6();
      } else if j == 7 {
        DocLine7();
      } else {
        DocLine8();
      }
    }
  }

  /** The keys are plain, distinct field names. */
  lemma DocKeysArePlain()
    ensures forall j :: 0 <= j < |DOC_KEYS| ==> EQUALS !in DOC_KEYS[j] && LF !in DOC_KEYS[j]
    ensures forall i, j :: 0 <= i < j < |DOC_KEYS| ==> DOC_KEYS[i] != DOC_KEYS[j]
    ensures DOC_KEYS[0] != [] && !IsWhitespace(DOC_KEYS[0][0])
  {
    FieldNameIsName("bssid");
    FieldNameIsName("ssid");
    FieldNameIsName("wps_state");
    FieldNameIsName("wpa");
    FieldNameIsName("group_cipher");
    FieldNameIsName("key_mgmt");
    FieldNameIsName("wpa_state");
    FieldNameIsName("rsn_pairwise_cipher");
    FieldNameIsName("wpa_pairwise_cipher");
    assert forall j :: 0 <= j < |DOC_KEYS| ==> IsFieldName(DOC_KEYS[j]);
    forall j | 0 <= j < |DOC_KEYS|
      ensures EQUALS !in DOC_KEYS[j] && LF !in DOC_KEYS[j]
    {
      assert IsFieldName(DOC_KEYS[j]);
    }
    assert WPS_STATE[2] != WPA_STATE[2];
    assert RSN_PAIRWISE_CIPHER[0] != WPA_PAIRWISE_CIPHER[0];
  }

  lemma LiteralIsText(s: string)
    requires forall i :: 0 <= i < |s| ==> s[i] < 0x80 as char
    ensures ValidUtf8(Ascii(s))
  {
    var a := Ascii(s);
    forall i | 0 <= i < |a|
      ensures a[i] < 0x80
    {
      assert (s[i] as int) < 0x80;
    }
    AsciiIsValidUtf8(a);
  }

  /** Every value is UTF-8. */
  lemma DocValuesAreText()
    ensures forall j :: 0 <= j < |DOC_VALUES| ==> ValidUtf8(DOC_VALUES[j])
  {
    forall j | 0 <= j < |DOC_VALUES|
      ensures ValidUtf8(DOC_VALUES[j])
    {
      if j == 0 {
        assert DOC_VALUES[j] == Ascii("e0:91:f5:7d:11:c0");
        LiteralIsText("e0:91:f5:7d:11:c0");
      } else if j == 1 {
        assert DOC_VALUES[j] == SHRUG;
        ShrugIsText();
      } else if j == 2 {
        assert DOC_VALUES[j] == Ascii("enabled");
        LiteralIsText("enabled");
      } else if j == 3 {
        assert DOC_VALUES[j] == Ascii("12");
        LiteralIsText("12");
      } else if j == 4 {
        assert DOC_VALUES[j] == Ascii("CCMP");
        LiteralIsText("CCMP");
      } else if j == 5 {
        assert DOC_VALUES[j] == Ascii("WPA2-PSK");
        LiteralIsText("WPA2-PSK");
      } else if j == 6 {
        assert DOC_VALUES[j] == Ascii("COMPLETED");
        LiteralIsText("COMPLETED");
      } else if j == 7 {
        assert DOC_VALUES[j] == Ascii("foo");
        LiteralIsText("foo");
      } else {
        assert DOC_VALUES[j] == Ascii("bar");
        LiteralIsText("bar");
      }
    }
  }


  /** The response's last line ends in `r`, which `trim` keeps. */
  lemma DocLastByte()
    ensures var l := Ascii("wpa_pairwise_cipher=bar"); l != [] && !IsWhitespace(l[|l| - 1])
  {
    var l := Ascii("wpa_pairwise_cipher=bar");
    assert l[22] == 0x72;
  }

  lemma DocLengths()
    ensures |DOC_LINES| == |DOC_KEYS| == |DOC_VALUES| == 9
  {
  }

  lemma DocLastLine()
    ensures var l := DOC_LINES[|DOC_LINES| - 1]; l != [] && !IsWhitespace(l[|l| - 1])
  {
    DocLastByte();
    assert DOC_LINES[8] == Ascii("wpa_pairwise_cipher=bar");
  }

  lemma LineBreakIsWhitespace()
    ensures AllWhitespace([LF])
  {
  }

  /** The map decoded from the response holds each value under its key, `wpa_state` included. */
  lemma DocMap()
    ensures ToMapSpec(DOC_RESPONSE).Ok?
    ensures var m := ToMapSpec(DOC_RESPONSE).value;
      forall j :: 0 <= j < |DOC_KEYS| ==> DOC_KEYS[j] in m && m[DOC_KEYS[j]] == DOC_VALUES[j]
  {
    DocLengths();
    DocLinesAreEntries();
    DocKeysArePlain();
    DocValuesAreText();
    DocLastLine();
    LineBreakIsWhitespace();
    ToMapOfEntries(DOC_LINES, DOC_KEYS, DOC_VALUES, [LF], [LF]);
  }

  /** The fields of the documented configuration, each under its name. */
  predicate DocFields(m: StrMap) {
    && BSSID in m && m[BSSID] == Ascii("e0:91:f5:7d:11:c0")
    && SSID in m && m[SSID] == SHRUG
    && WPS_STATE in m && m[WPS_STATE] == Ascii("enabled")
    && WPA in m && m[WPA] == Ascii("12")
    && GROUP_CIPHER in m && m[GROUP_CIPHER] == Ascii("CCMP")
    && KEY_MGMT in m && m[KEY_MGMT] == Ascii("WPA2-PSK")
    && RSN_PAIRWISE_CIPHER in m && m[RSN_PAIRWISE_CIPHER] == Ascii("foo")
    && WPA_PAIRWISE_CIPHER in m && m[WPA_PAIRWISE_CIPHER] == Ascii("bar")
  }

  lemma DocFieldsOfEntries(m: StrMap)
    requires forall j :: 0 <= j < |DOC_KEYS| ==> DOC_KEYS[j] in m && m[DOC_KEYS[j]] == DOC_VALUES[j]
    ensures DocFields(m)
  {
    assert DOC_KEYS[0] in m && m[DOC_KEYS[0]] == DOC_VALUES[0];
    assert DOC_KEYS[1] in m && m[DOC_KEYS[1]] == DOC_VALUES[1];
    assert DOC_KEYS[2] in m && m[DOC_KEYS[2]] == DOC_VALUES[2];
    assert DOC_KEYS[3] in m && m[DOC_KEYS[3]] == DOC_VALUES[3];
    assert DOC_KEYS[4] in m && m[DOC_KEYS[4]] == DOC_VALUES[4];
    assert DOC_KEYS[5] in m && m[DOC_KEYS[5]] == DOC_VALUES[5];
    assert DOC_KEYS[7] in m && m[DOC_KEYS[7]] == DOC_VALUES[7];
    assert DOC_KEYS[8] in m && m[DOC_KEYS[8]] == DOC_VALUES[8];
  }

  /** The decoded map, field by field. */
  lemma DocMapFields()
    ensures ToMapSpec(DOC_RESPONSE).Ok? && DocFields(ToMapSpec(DOC_RESPONSE).value)
  {
    DocMap();
    DocFieldsOfEntries(ToMapSpec(DOC_RESPONSE).value);
  }

  lemma DocFieldsPresent(m: StrMap)
    requires DocFields(m)
    ensures AllPresent(m, CONFIG_FIELDS)
  {
    forall i | 0 <= i < |CONFIG_FIELDS|
      ensures CONFIG_FIELDS[i] in m
    {
      if i == 0 {
        assert CONFIG_FIELDS[i] == BSSID;
      } else if i == 1 {
        assert CONFIG_FIELDS[i] == SSID;
      } else if i == 2 {
        assert CONFIG_FIELDS[i] == WPS_STATE;
      } else if i == 3 {
        assert CONFIG_FIELDS[i] == WPA;
      } else if i == 4 {
        assert CONFIG_FIELDS[i] == KEY_MGMT;
      } else if i == 5 {
        assert CONFIG_FIELDS[i] == GROUP_CIPHER;
      } else if i == 6 {
        assert CONFIG_FIELDS[i] == RSN_PAIRWISE_CIPHER;
      } else {
        assert CONFIG_FIELDS[i] == WPA_PAIRWISE_CIPHER;
      }
    }
  }

  lemma TwelveParses()
    ensures ParseI32(Ascii("12")) == Some(12)
  {
    ParseFormatI32(12);
    assert FormatI32(12) == FormatNat(12);
    assert FormatNat(1) == [0x31];
    assert FormatNat(12) == FormatNat(1) + [0x32] == [0x31, 0x32];
    assert Ascii("12") == [0x31, 0x32];
  }

  /**
   * The documented example: the response decodes, `wps_state` is `enabled`,
   * `wpa` is 12, the SSID is `¯\_(ツ)_/¯`, and `wpa_state`, which names no
   * field, is ignored.
   */
  lemma ConfigDoctest()
    ensures ConfigFromResponse(DOC_RESPONSE) == Ok(Config(
      Ascii("e0:91:f5:7d:11:c0"), SHRUG, true, 12,
      Ascii("WPA2-PSK"), Ascii("CCMP"), Ascii("foo"), Ascii("bar")))
  {
    DocMapFields();
    PopulateDocFields(ToMapSpec(DOC_RESPONSE).value);
  }

  /** A map holding the documented fields populates the documented configuration. */
  lemma PopulateDocFields(m: StrMap)
    requires DocFields(m)
    ensures PopulateConfig(m) == Ok(Config(
      Ascii("e0:91:f5:7d:11:c0"), SHRUG, true, 12,
      Ascii("WPA2-PSK"), Ascii("CCMP"), Ascii("foo"), Ascii("bar")))
  {
    TwelveParses();
    DocFieldsPresent(m);
    var r := PopulateConfig(m);
    assert ConfigFrom(r.value, m);
  }
}
