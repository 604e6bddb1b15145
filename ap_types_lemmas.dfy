/**
 * Properties of the records' decoders: the field conversions undo their
 * writers, unknown keys are ignored, a configuration written out line by line
 * reads back unchanged, and the status record as declared never decodes.
 */
module ApTypesLemmas {
  import opened Wrappers
  import opened Bytes
  import opened Utf8
  import opened StdStr
  import opened ConfigCodec
  import opened ConfigCodecLemmas
  import opened WifiError
  import opened ApTypes

  // ---------------------------------------------------------------------------
  // Field conversions

  /** `deserialize_enabled_bool` reads back the token written for either value. */
  lemma EnabledBoolRoundTrip(b: bool)
    ensures DeserializeEnabledBool(EnabledToken(b)) == Ok(b)
  {
  }

  /** `deserialize_i32` reads back the decimal text of every i32. */
  lemma DeserializeI32RoundTrip(n: i32)
    ensures DeserializeI32(FormatI32(n)) == Ok(n)
  {
    ParseFormatI32(n);
  }

  /** Decimal texts just past either end of the i32 range give `invalid int`. */
  lemma DeserializeI32OutOfRange(n: nat)
    requires n >= 0x8000_0000
    ensures DeserializeI32(FormatNat(n)) == Err(InvalidInt())
    ensures DeserializeI32([MINUS] + FormatNat(n + 1)) == Err(InvalidInt())
  {
    ParseI32Overflow(n);
  }

  // ---------------------------------------------------------------------------
  // Unknown keys

  lemma {:induction false} FirstMissingIgnores(m: StrMap, fields: seq<seq<byte>>, k: seq<byte>, v: seq<byte>)
    requires k !in fields
    ensures FirstMissing(m[k := v], fields) == FirstMissing(m, fields)
    decreases |fields|
  {
    if |fields| > 0 {
      assert fields[0] != k;
      FirstMissingIgnores(m, fields[1..], k, v);
    }
  }

  /** A key that names no field of `Config` does not change what the map decodes to. */
  lemma PopulateConfigIgnoresUnknownKeys(m: StrMap, k: seq<byte>, v: seq<byte>)
    requires k !in CONFIG_FIELDS
    ensures PopulateConfig(m[k := v]) == PopulateConfig(m)
  {
    FirstMissingIgnores(m, CONFIG_FIELDS, k, v);
    assert k != WPS_STATE && k != WPA;
    assert k != BSSID && k != SSID && k != KEY_MGMT && k != GROUP_CIPHER;
    assert k != RSN_PAIRWISE_CIPHER && k != WPA_PAIRWISE_CIPHER;
  }

  /** A key that names no field of `Status` does not change what the map decodes to. */
  lemma PopulateStatusIgnoresUnknownKeys(m: StrMap, toVec: seq<byte> -> Result<seq<seq<byte>>, ConfigError>, k: seq<byte>, v: seq<byte>)
    requires k !in STATUS_FIELDS
    ensures PopulateStatus(m[k := v], toVec) == PopulateStatus(m, toVec)
  {
    FirstMissingIgnores(m, STATUS_FIELDS, k, v);
    assert k != BSS && k != BSSID && k != SSID && k != NUM_STA;
    if PopulateStatus(m, toVec).Ok? {
      StatusFromIgnores(m, k, v, toVec(m[BSS]).value, toVec(m[BSSID]).value, toVec(m[SSID]).value, toVec(m[NUM_STA]).value);
    }
  }

  /** The string fields of a `Status` read the same from a map with an unknown key added. */
  lemma StatusFromIgnores(m: StrMap, k: seq<byte>, v: seq<byte>,
                          bss: seq<seq<byte>>, bssid: seq<seq<byte>>, ssid: seq<seq<byte>>, num_sta: seq<seq<byte>>)
    requires AllPresent(m, STATUS_FIELDS) && k !in STATUS_FIELDS
    ensures AllPresent(m[k := v], STATUS_FIELDS)
    ensures StatusFrom(m[k := v], bss, bssid, ssid, num_sta) == StatusFrom(m, bss, bssid, ssid, num_sta)
  {
    var m' := m[k := v];
    forall i | 0 <= i < |STATUS_FIELDS|
      ensures STATUS_FIELDS[i] in m' && m'[STATUS_FIELDS[i]] == m[STATUS_FIELDS[i]]
    {
      assert STATUS_FIELDS[i] != k;
    }
    assert k != STATE && k != PHY && k != FREQ && k != NUM_STA_NON_ERP && k != NUM_STA_NO_SHORT_SLOT_TIME;
    assert k != NUM_STA_NO_SHORT_PREAMBLE && k != OLBC && k != NUM_STA_HT_NO_GF && k != NUM_STA_NO_HT;
    assert k != NUM_STA_HT_20_MHZ && k != NUM_STA_HT40_INTOLERANT && k != OLBC_HT && k != HT_OP_MODE;
    assert k != CAC_TIME_SECONDS && k != CAC_TIME_LEFT_SECONDS && k != CHANNEL && k != SECONDARY_CHANNEL;
    assert k != IEEE80211N && k != IEEE80211AC && k != IEEE80211AX && k != BEACON_INT && k != DTIM_PERIOD;
    assert k != HT_CAPS_INFO && k != HT_MCS_BITMASK && k != SUPPORTED_RATES && k != MAX_TXPOWER;
  }

  // ---------------------------------------------------------------------------
  // Status

  /**
   * Serde has no way to turn the single string a key holds into the
   * `Vec<String>` that `bss`, `bssid`, `ssid` and `num_sta` declare, and a
   * response without those keys lacks a required field: no response decodes
   * to a `Status`.
   */
  lemma StatusNeverParses(response: seq<byte>)
    ensures StatusFromResponse(response).Err?
  {
    if ToMapSpec(response).Ok? {
      var m := ToMapSpec(response).value;
      if BSS in m {
        assert SerdeStringToVec(m[BSS]).Err?;
      }
    }
  }

  // ---------------------------------------------------------------------------
  // Config

  /** An empty or all-whitespace response lacks the first field, `bssid`. */
  lemma ConfigFromBlankResponse(response: seq<byte>)
    requires AllWhitespace(response)
    ensures ConfigFromResponse(response) == Err(ParsingWifiConfig(MissingField(BSSID), response))
  {
    ToMapBlankResponse(response);
    PopulateConfigOfEmptyMap();
  }

  lemma PopulateConfigOfEmptyMap()
    ensures PopulateConfig(map[]) == Err(MissingField(BSSID))
  {
    assert FirstMissing(map[], CONFIG_FIELDS) == Some(BSSID);
    assert ConfigConversionErrors(map[]) == {};
  }

  /** The text fields of a configuration are valid UTF-8, as every Rust `String` is. */
  predicate ConfigIsText(c: Config) {
    && ValidUtf8(c.bssid) && ValidUtf8(c.ssid) && ValidUtf8(c.key_mgmt)
    && ValidUtf8(c.group_cipher) && ValidUtf8(c.rsn_pairwise_cipher) && ValidUtf8(c.wpa_pairwise_cipher)
  }

  /** The order in which the writer below emits the fields: `wpa` last, so the response ends in a digit. */
  const CONFIG_LINE_KEYS: seq<seq<byte>> :=
    [BSSID, SSID, WPS_STATE, KEY_MGMT, GROUP_CIPHER, RSN_PAIRWISE_CIPHER, WPA_PAIRWISE_CIPHER, WPA]

  /** The value written for each key of `CONFIG_LINE_KEYS`. */
  function ConfigLineValues(c: Config): (vs: seq<seq<byte>>)
    ensures |vs| == |CONFIG_LINE_KEYS|
  {
    [c.bssid, c.ssid, EnabledToken(c.wps_state), c.key_mgmt, c.group_cipher,
     c.rsn_pairwise_cipher, c.wpa_pairwise_cipher, FormatI32(c.wpa)]
  }

  /** A configuration as an access point reports it: one `key=value` line per field. */
  function ConfigResponse(c: Config): seq<byte> {
    Join(EntryLines(CONFIG_LINE_KEYS, ConfigLineValues(c)))
  }

  predicate IsFieldName(s: seq<byte>) {
    forall i :: 0 <= i < |s| ==> 0x61 <= s[i] <= 0x7A || s[i] == 0x5F
  }

  lemma FieldNameIsName(name: string)
    requires forall i :: 0 <= i < |name| ==> 'a' <= name[i] <= 'z' || name[i] == '_'
    ensures IsFieldName(FieldName(name)) && |FieldName(name)| == |name|
  {
  }

  lemma ConfigLineKeysAreNames()
    ensures forall j :: 0 <= j < |CONFIG_LINE_KEYS| ==> IsFieldName(CONFIG_LINE_KEYS[j])
    ensures forall i, j :: 0 <= i < j < |CONFIG_LINE_KEYS| ==> CONFIG_LINE_KEYS[i] != CONFIG_LINE_KEYS[j]
  {
    FieldNameIsName("bssid");
    FieldNameIsName("ssid");
    FieldNameIsName("wps_state");
    FieldNameIsName("key_mgmt");
    FieldNameIsName("group_cipher");
    FieldNameIsName("rsn_pairwise_cipher");
    FieldNameIsName("wpa_pairwise_cipher");
    FieldNameIsName("wpa");
    assert RSN_PAIRWISE_CIPHER[0] != WPA_PAIRWISE_CIPHER[0];
  }

  /** Field names hold neither `=` nor a line break, and the first starts with a letter. */
  lemma ConfigLineKeysArePlain()
    ensures forall j :: 0 <= j < |CONFIG_LINE_KEYS| ==> EQUALS !in CONFIG_LINE_KEYS[j] && LF !in CONFIG_LINE_KEYS[j]
    ensures CONFIG_LINE_KEYS[0] != [] && !IsWhitespace(CONFIG_LINE_KEYS[0][0])
  {
    ConfigLineKeysAreNames();
    forall j | 0 <= j < |CONFIG_LINE_KEYS|
      ensures EQUALS !in CONFIG_LINE_KEYS[j] && LF !in CONFIG_LINE_KEYS[j]
    {
      assert IsFieldName(CONFIG_LINE_KEYS[j]);
    }
    FieldNameIsName("bssid");
  }

  lemma FormatI32Plain(n: i32)
    ensures IsAscii(FormatI32(n))
    ensures PrintfEncode(FormatI32(n)) == FormatI32(n)
    ensures var f := FormatI32(n); 0x30 <= f[|f| - 1] <= 0x39
  {
    var f := FormatI32(n);
    var d := if n < 0 then FormatNat(-(n as int)) else FormatNat(n as nat);
    assert forall i :: 0 <= i < |d| ==> 0x30 <= d[i] <= 0x39 by {
      forall i | 0 <= i < |d| ensures 0x30 <= d[i] <= 0x39 {
        assert DigitOf(d[i]) < 10;
      }
    }
    assert forall i :: 0 <= i < |f| ==> f[i] == MINUS || 0x30 <= f[i] <= 0x39;
    PrintfEncodePlain(f);
  }

  /** A map that holds the written value under every key decodes to the configuration written. */
  lemma PopulateConfigOfLines(c: Config, m: StrMap)
    requires forall j :: 0 <= j < |CONFIG_LINE_KEYS| ==> CONFIG_LINE_KEYS[j] in m && m[CONFIG_LINE_KEYS[j]] == ConfigLineValues(c)[j]
    ensures PopulateConfig(m) == Ok(c)
  {
    var values := ConfigLineValues(c);
    assert CONFIG_LINE_KEYS[0] == BSSID && m[BSSID] == c.bssid;
    assert CONFIG_LINE_KEYS[1] == SSID && m[SSID] == c.ssid;
    assert CONFIG_LINE_KEYS[2] == WPS_STATE && m[WPS_STATE] == EnabledToken(c.wps_state);
    assert CONFIG_LINE_KEYS[3] == KEY_MGMT && m[KEY_MGMT] == c.key_mgmt;
    assert CONFIG_LINE_KEYS[4] == GROUP_CIPHER && m[GROUP_CIPHER] == c.group_cipher;
    assert CONFIG_LINE_KEYS[5] == RSN_PAIRWISE_CIPHER && m[RSN_PAIRWISE_CIPHER] == c.rsn_pairwise_cipher;
    assert CONFIG_LINE_KEYS[6] == WPA_PAIRWISE_CIPHER && m[WPA_PAIRWISE_CIPHER] == c.wpa_pairwise_cipher;
    assert CONFIG_LINE_KEYS[7] == WPA && m[WPA] == FormatI32(c.wpa);
    EnabledBoolRoundTrip(c.wps_state);
    DeserializeI32RoundTrip(c.wpa);
    ParseFormatI32(c.wpa);
    assert AllPresent(m, CONFIG_FIELDS);
    var r := PopulateConfig(m);
    assert ConfigFrom(r.value, m);
    assert |Ascii("disabled")| != |Ascii("enabled")|;
  }

  lemma EnabledTokenIsText(b: bool)
    ensures ValidUtf8(EnabledToken(b))
  {
    assert IsAscii(EnabledToken(b));
    AsciiIsValidUtf8(EnabledToken(b));
  }

  /** Every written value is UTF-8. */
  lemma ConfigLineValuesText(c: Config)
    requires ConfigIsText(c)
    ensures forall j :: 0 <= j < |ConfigLineValues(c)| ==> ValidUtf8(ConfigLineValues(c)[j])
  {
    FormatI32Plain(c.wpa);
    AsciiIsValidUtf8(FormatI32(c.wpa));
    EnabledTokenIsText(c.wps_state);
    EightTexts(c.bssid, c.ssid, EnabledToken(c.wps_state), c.key_mgmt, c.group_cipher,
               c.rsn_pairwise_cipher, c.wpa_pairwise_cipher, FormatI32(c.wpa));
  }

  lemma EightTexts(a: seq<byte>, b: seq<byte>, c: seq<byte>, d: seq<byte>,
                   e: seq<byte>, f: seq<byte>, g: seq<byte>, h: seq<byte>)
    requires ValidUtf8(a) && ValidUtf8(b) && ValidUtf8(c) && ValidUtf8(d)
    requires ValidUtf8(e) && ValidUtf8(f) && ValidUtf8(g) && ValidUtf8(h)
    ensures forall j :: 0 <= j < 8 ==> ValidUtf8([a, b, c, d, e, f, g, h][j])
  {
    var vs := [a, b, c, d, e, f, g, h];
    forall j | 0 <= j < 8
      ensures ValidUtf8(vs[j])
    {
      if j == 0 {
        assert vs[j] == a;
      } else if j == 1 {
        assert vs[j] == b;
      } else if j == 2 {
        assert vs[j] == c;
      } else if j == 3 {
        assert vs[j] == d;
      } else if j == 4 {
        assert vs[j] == e;
      } else if j == 5 {
        assert vs[j] == f;
      } else if j == 6 {
        assert vs[j] == g;
      } else {
        assert vs[j] == h;
      }
    }
  }

  /** The last line, `wpa=<decimal>`, ends in a digit, which `trim` keeps. */
  lemma ConfigLastLineEnd(c: Config)
    ensures var l := EntryLine(CONFIG_LINE_KEYS[7], ConfigLineValues(c)[7]); l != [] && !IsWhitespace(l[|l| - 1])
  {
    FormatI32Plain(c.wpa);
    var f := FormatI32(c.wpa);
    assert ConfigLineValues(c)[7] == f;
    var l := EntryLine(CONFIG_LINE_KEYS[7], f);
    assert l[|l| - 1] == f[|f| - 1];
  }

  /** Every configuration with text fields, written out and wrapped in any whitespace, decodes back to itself. */
  lemma ConfigRoundTrip(c: Config, lead: seq<byte>, trail: seq<byte>)
    requires ConfigIsText(c)
    requires AllWhitespace(lead) && AllWhitespace(trail)
    ensures ConfigFromResponse(lead + ConfigResponse(c) + trail) == Ok(c)
  {
    ConfigLineKeysAreNames();
    ConfigLineKeysArePlain();
    ConfigLineValuesText(c);
    ConfigLastLineEnd(c);
    ToMapOfEntries(EntryLines(CONFIG_LINE_KEYS, ConfigLineValues(c)), CONFIG_LINE_KEYS, ConfigLineValues(c), lead, trail);
    PopulateConfigOfLines(c, ToMapSpec(lead + ConfigResponse(c) + trail).value);
  }
}
