/**
 * The records of src/ap/types.rs and how a response populates them. Serde's
 * derived deserializer is replaced by one explicit population function per
 * record: it looks each field up by name, applies the field's conversion,
 * ignores every other key, and fails when a field is missing.
 */
module ApTypes {
  import opened Wrappers
  import opened Bytes
  import opened StdStr
  import opened ConfigCodec
  import opened WifiError

  /** Status of the access point. */
  datatype Status = Status(
    state: seq<byte>,
    phy: seq<byte>,
    freq: seq<byte>,
    num_sta_non_erp: seq<byte>,
    num_sta_no_short_slot_time: seq<byte>,
    num_sta_no_short_preamble: seq<byte>,
    olbc: seq<byte>,
    num_sta_ht_no_gf: seq<byte>,
    num_sta_no_ht: seq<byte>,
    num_sta_ht_20_mhz: seq<byte>,
    num_sta_ht40_intolerant: seq<byte>,
    olbc_ht: seq<byte>,
    ht_op_mode: seq<byte>,
    cac_time_seconds: seq<byte>,
    cac_time_left_seconds: seq<byte>,
    channel: seq<byte>,
    secondary_channel: seq<byte>,
    ieee80211n: seq<byte>,
    ieee80211ac: seq<byte>,
    ieee80211ax: seq<byte>,
    beacon_int: seq<byte>,
    dtim_period: seq<byte>,
    ht_caps_info: seq<byte>,
    ht_mcs_bitmask: seq<byte>,
    supported_rates: seq<byte>,
    max_txpower: seq<byte>,
    bss: seq<seq<byte>>,
    bssid: seq<seq<byte>>,
    ssid: seq<seq<byte>>,
    num_sta: seq<seq<byte>>)

  /** Configuration of the access point. */
  datatype Config = Config(
    bssid: seq<byte>,
    ssid: seq<byte>,
    wps_state: bool,
    wpa: i32,
    key_mgmt: seq<byte>,
    group_cipher: seq<byte>,
    rsn_pairwise_cipher: seq<byte>,
    wpa_pairwise_cipher: seq<byte>)

  // ---------------------------------------------------------------------------
  // Field names, in declaration order

  /** The key under which a field is looked up: its name in the record. */
  function FieldName(name: string): seq<byte> {
    Ascii(name)
  }

  const BSSID := FieldName("bssid")
  const SSID := FieldName("ssid")
  const WPS_STATE := FieldName("wps_state")
  const WPA := FieldName("wpa")
  const KEY_MGMT := FieldName("key_mgmt")
  const GROUP_CIPHER := FieldName("group_cipher")
  const RSN_PAIRWISE_CIPHER := FieldName("rsn_pairwise_cipher")
  const WPA_PAIRWISE_CIPHER := FieldName("wpa_pairwise_cipher")

  const CONFIG_FIELDS: seq<seq<byte>> :=
    [BSSID, SSID, WPS_STATE, WPA, KEY_MGMT, GROUP_CIPHER, RSN_PAIRWISE_CIPHER, WPA_PAIRWISE_CIPHER]

  const STATE := FieldName("state")
  const PHY := FieldName("phy")
  const FREQ := FieldName("freq")
  const NUM_STA_NON_ERP := FieldName("num_sta_non_erp")
  const NUM_STA_NO_SHORT_SLOT_TIME := FieldName("num_sta_no_short_slot_time")
  const NUM_STA_NO_SHORT_PREAMBLE := FieldName("num_sta_no_short_preamble")
  const OLBC := FieldName("olbc")
  const NUM_STA_HT_NO_GF := FieldName("num_sta_ht_no_gf")
  const NUM_STA_NO_HT := FieldName("num_sta_no_ht")
  const NUM_STA_HT_20_MHZ := FieldName("num_sta_ht_20_mhz")
  const NUM_STA_HT40_INTOLERANT := FieldName("num_sta_ht40_intolerant")
  const OLBC_HT := FieldName("olbc_ht")
  const HT_OP_MODE := FieldName("ht_op_mode")
  const CAC_TIME_SECONDS := FieldName("cac_time_seconds")
  const CAC_TIME_LEFT_SECONDS := FieldName("cac_time_left_seconds")
  const CHANNEL := FieldName("channel")
  const SECONDARY_CHANNEL := FieldName("secondary_channel")
  const IEEE80211N := FieldName("ieee80211n")
  const IEEE80211AC := FieldName("ieee80211ac")
  const IEEE80211AX := FieldName("ieee80211ax")
  const BEACON_INT := FieldName("beacon_int")
  const DTIM_PERIOD := FieldName("dtim_period")
  const HT_CAPS_INFO := FieldName("ht_caps_info")
  const HT_MCS_BITMASK := FieldName("ht_mcs_bitmask")
  const SUPPORTED_RATES := FieldName("supported_rates")
  const MAX_TXPOWER := FieldName("max_txpower")
  const BSS := FieldName("bss")
  const NUM_STA := FieldName("num_sta")

  const STATUS_FIELDS: seq<seq<byte>> := [
    STATE, PHY, FREQ, NUM_STA_NON_ERP, NUM_STA_NO_SHORT_SLOT_TIME, NUM_STA_NO_SHORT_PREAMBLE,
    OLBC, NUM_STA_HT_NO_GF, NUM_STA_NO_HT, NUM_STA_HT_20_MHZ, NUM_STA_HT40_INTOLERANT, OLBC_HT,
    HT_OP_MODE, CAC_TIME_SECONDS, CAC_TIME_LEFT_SECONDS, CHANNEL, SECONDARY_CHANNEL,
    IEEE80211N, IEEE80211AC, IEEE80211AX, BEACON_INT, DTIM_PERIOD, HT_CAPS_INFO,
    HT_MCS_BITMASK, SUPPORTED_RATES, MAX_TXPOWER, BSS, BSSID, SSID, NUM_STA]

  // ---------------------------------------------------------------------------
  // Serde's error messages, all raised through `ConfigError::custom`

  function UnknownVariant(s: seq<byte>): ConfigError {
    Custom(Ascii("unknown variant `") + s + Ascii("`, expected `enabled` or `disabled`"))
  }

  function InvalidInt(): ConfigError {
    Custom(Ascii("invalid int"))
  }

  function MissingField(name: seq<byte>): ConfigError {
    Custom(Ascii("missing field `") + name + Ascii("`"))
  }

  function InvalidTypeForSeq(s: seq<byte>): ConfigError {
    Custom(Ascii("invalid type: string \"") + s + Ascii("\", expected a sequence"))
  }

  // ---------------------------------------------------------------------------
  // Per-field conversions

  /** `deserialize_enabled_bool`: exactly `enabled` and `disabled` are accepted. */
  function DeserializeEnabledBool(s: seq<byte>): (r: Result<bool, ConfigError>)
    ensures r == Ok(true) <==> s == Ascii("enabled")
    ensures r == Ok(false) <==> s == Ascii("disabled")
    ensures r.Err? ==> r.error == UnknownVariant(s) && r.error.SerdeError?
  {
    if s == Ascii("enabled") then Ok(true)
    else if s == Ascii("disabled") then Ok(false)
    else Err(UnknownVariant(s))
  }

  /** The token that `deserialize_enabled_bool` reads back as `b`. */
  function EnabledToken(b: bool): seq<byte> {
    if b then Ascii("enabled") else Ascii("disabled")
  }

  /** `deserialize_i32`: a decimal i32 as `str::parse` reads it, or the `invalid int` error. */
  function DeserializeI32(s: seq<byte>): (r: Result<i32, ConfigError>)
    ensures r.Ok? <==> ParseI32(s).Some?
    ensures r.Ok? ==> ParseI32(s) == Some(r.value)
    ensures r.Err? ==> r.error == SerdeError(Ascii("invalid int"))
  {
    match ParseI32(s)
    case Some(n) => Ok(n)
    case None => Err(InvalidInt())
  }

  /** What serde makes of a single string where a `Vec<String>` is declared: an invalid-type error. */
  function SerdeStringToVec(s: seq<byte>): (r: Result<seq<seq<byte>>, ConfigError>)
    ensures r.Err? && r.error.SerdeError?
  {
    Err(InvalidTypeForSeq(s))
  }

  // ---------------------------------------------------------------------------
  // Population

  predicate AllPresent(m: StrMap, fields: seq<seq<byte>>) {
    forall i :: 0 <= i < |fields| ==> fields[i] in m
  }

  /** The first field, in declaration order, that the map lacks. */
  function FirstMissing(m: StrMap, fields: seq<seq<byte>>): (r: Option<seq<byte>>)
    ensures r.None? <==> AllPresent(m, fields)
    ensures r.Some? ==> exists i :: 0 <= i < |fields| && fields[i] == r.value && r.value !in m && AllPresent(m, fields[..i])
    decreases |fields|
  {
    if |fields| == 0 then None
    else if fields[0] !in m then
      assert fields[..0] == [];
      Some(fields[0])
    else
      var r := FirstMissing(m, fields[1..]);
      assert forall i :: 1 <= i < |fields| ==> fields[i] == fields[1..][i - 1];
      if r.Some? then
        var i :| 0 <= i < |fields[1..]| && fields[1..][i] == r.value && r.value !in m && AllPresent(m, fields[1..][..i]);
        assert forall j :: 1 <= j < i + 1 ==> fields[..i + 1][j] == fields[j] == fields[1..][..i][j - 1];
        r
      else r
  }

  /** The errors the typed fields of `Config` that are present would raise. */
  function ConfigConversionErrors(m: StrMap): set<ConfigError> {
    (if WPS_STATE in m && DeserializeEnabledBool(m[WPS_STATE]).Err? then {DeserializeEnabledBool(m[WPS_STATE]).error} else {})
    + (if WPA in m && DeserializeI32(m[WPA]).Err? then {DeserializeI32(m[WPA]).error} else {})
  }

  /** Every field of `c` is the map's value for its name, converted as the field's type demands. */
  predicate ConfigFrom(c: Config, m: StrMap) {
    && BSSID in m && c.bssid == m[BSSID]
    && SSID in m && c.ssid == m[SSID]
    && WPS_STATE in m && (c.wps_state <==> m[WPS_STATE] == Ascii("enabled"))
    && WPA in m && ParseI32(m[WPA]) == Some(c.wpa)
    && KEY_MGMT in m && c.key_mgmt == m[KEY_MGMT]
    && GROUP_CIPHER in m && c.group_cipher == m[GROUP_CIPHER]
    && RSN_PAIRWISE_CIPHER in m && c.rsn_pairwise_cipher == m[RSN_PAIRWISE_CIPHER]
    && WPA_PAIRWISE_CIPHER in m && c.wpa_pairwise_cipher == m[WPA_PAIRWISE_CIPHER]
  }

  /**
   * Populates a `Config` from the map: conversion errors of the fields that
   * are present come first (serde meets them while walking the entries, in
   * an order the map decides), then the first missing field in declaration
   * order; keys that name no field are ignored.
   */
  function PopulateConfig(m: StrMap): (r: Result<Config, ConfigError>)
    ensures r.Ok? <==> (AllPresent(m, CONFIG_FIELDS) && WPS_STATE in m && WPA in m
                        && DeserializeEnabledBool(m[WPS_STATE]).Ok? && DeserializeI32(m[WPA]).Ok?)
    ensures r.Ok? ==> ConfigFrom(r.value, m)
    ensures r.Err? && ConfigConversionErrors(m) != {} ==> r.error in ConfigConversionErrors(m)
    ensures r.Err? && ConfigConversionErrors(m) == {} ==>
      FirstMissing(m, CONFIG_FIELDS).Some? && r.error == MissingField(FirstMissing(m, CONFIG_FIELDS).value)
  {
    if WPS_STATE in m && DeserializeEnabledBool(m[WPS_STATE]).Err? then Err(DeserializeEnabledBool(m[WPS_STATE]).error)
    else if WPA in m && DeserializeI32(m[WPA]).Err? then Err(DeserializeI32(m[WPA]).error)
    else match FirstMissing(m, CONFIG_FIELDS)
      case Some(name) => Err(MissingField(name))
      case None =>
        assert CONFIG_FIELDS[0] in m && CONFIG_FIELDS[1] in m && CONFIG_FIELDS[2] in m && CONFIG_FIELDS[3] in m;
        assert CONFIG_FIELDS[4] in m && CONFIG_FIELDS[5] in m && CONFIG_FIELDS[6] in m && CONFIG_FIELDS[7] in m;
        Ok(Config(
          m[BSSID], m[SSID], DeserializeEnabledBool(m[WPS_STATE]).value, DeserializeI32(m[WPA]).value,
          m[KEY_MGMT], m[GROUP_CIPHER], m[RSN_PAIRWISE_CIPHER], m[WPA_PAIRWISE_CIPHER]))
  }

  /** The errors the `Vec<String>` fields of `Status` that are present would raise. */
  function StatusConversionErrors(m: StrMap, toVec: seq<byte> -> Result<seq<seq<byte>>, ConfigError>): set<ConfigError> {
    (if BSS in m && toVec(m[BSS]).Err? then {toVec(m[BSS]).error} else {})
    + (if BSSID in m && toVec(m[BSSID]).Err? then {toVec(m[BSSID]).error} else {})
    + (if SSID in m && toVec(m[SSID]).Err? then {toVec(m[SSID]).error} else {})
    + (if NUM_STA in m && toVec(m[NUM_STA]).Err? then {toVec(m[NUM_STA]).error} else {})
  }

  /** Every string field of `st` holds the map's value for its name. */
  predicate StatusStringsFrom(st: Status, m: StrMap) {
    && STATE in m && st.state == m[STATE]
    && PHY in m && st.phy == m[PHY]
    && FREQ in m && st.freq == m[FREQ]
    && NUM_STA_NON_ERP in m && st.num_sta_non_erp == m[NUM_STA_NON_ERP]
    && NUM_STA_NO_SHORT_SLOT_TIME in m && st.num_sta_no_short_slot_time == m[NUM_STA_NO_SHORT_SLOT_TIME]
    && NUM_STA_NO_SHORT_PREAMBLE in m && st.num_sta_no_short_preamble == m[NUM_STA_NO_SHORT_PREAMBLE]
    && OLBC in m && st.olbc == m[OLBC]
    && NUM_STA_HT_NO_GF in m && st.num_sta_ht_no_gf == m[NUM_STA_HT_NO_GF]
    && NUM_STA_NO_HT in m && st.num_sta_no_ht == m[NUM_STA_NO_HT]
    && NUM_STA_HT_20_MHZ in m && st.num_sta_ht_20_mhz == m[NUM_STA_HT_20_MHZ]
    && NUM_STA_HT40_INTOLERANT in m && st.num_sta_ht40_intolerant == m[NUM_STA_HT40_INTOLERANT]
    && OLBC_HT in m && st.olbc_ht == m[OLBC_HT]
    && HT_OP_MODE in m && st.ht_op_mode == m[HT_OP_MODE]
    && CAC_TIME_SECONDS in m && st.cac_time_seconds == m[CAC_TIME_SECONDS]
    && CAC_TIME_LEFT_SECONDS in m && st.cac_time_left_seconds == m[CAC_TIME_LEFT_SECONDS]
    && CHANNEL in m && st.channel == m[CHANNEL]
    && SECONDARY_CHANNEL in m && st.secondary_channel == m[SECONDARY_CHANNEL]
    && IEEE80211N in m && st.ieee80211n == m[IEEE80211N]
    && IEEE80211AC in m && st.ieee80211ac == m[IEEE80211AC]
    && IEEE80211AX in m && st.ieee80211ax == m[IEEE80211AX]
    && BEACON_INT in m && st.beacon_int == m[BEACON_INT]
    && DTIM_PERIOD in m && st.dtim_period == m[DTIM_PERIOD]
    && HT_CAPS_INFO in m && st.ht_caps_info == m[HT_CAPS_INFO]
    && HT_MCS_BITMASK in m && st.ht_mcs_bitmask == m[HT_MCS_BITMASK]
    && SUPPORTED_RATES in m && st.supported_rates == m[SUPPORTED_RATES]
    && MAX_TXPOWER in m && st.max_txpower == m[MAX_TXPOWER]
  }

  /** Every sequence field of `st` is what `toVec` makes of the map's value for its name. */
  predicate StatusSequencesFrom(st: Status, m: StrMap, toVec: seq<byte> -> Result<seq<seq<byte>>, ConfigError>) {
    && BSS in m && toVec(m[BSS]) == Ok(st.bss)
    && BSSID in m && toVec(m[BSSID]) == Ok(st.bssid)
    && SSID in m && toVec(m[SSID]) == Ok(st.ssid)
    && NUM_STA in m && toVec(m[NUM_STA]) == Ok(st.num_sta)
  }

  /** The `Status` whose string fields come from the map, given its four sequences. */
  function StatusFrom(m: StrMap, bss: seq<seq<byte>>, bssid: seq<seq<byte>>, ssid: seq<seq<byte>>, num_sta: seq<seq<byte>>): (st: Status)
    requires AllPresent(m, STATUS_FIELDS)
    ensures StatusStringsFrom(st, m)
    ensures st.bss == bss && st.bssid == bssid && st.ssid == ssid && st.num_sta == num_sta
  {
    StringFieldsPresent(m);
    MoreStringFieldsPresent(m);
    RadioFieldsPresent(m);
    MoreRadioFieldsPresent(m);
    Status(
      m[STATE], m[PHY], m[FREQ], m[NUM_STA_NON_ERP], m[NUM_STA_NO_SHORT_SLOT_TIME],
      m[NUM_STA_NO_SHORT_PREAMBLE], m[OLBC], m[NUM_STA_HT_NO_GF], m[NUM_STA_NO_HT],
      m[NUM_STA_HT_20_MHZ], m[NUM_STA_HT40_INTOLERANT], m[OLBC_HT], m[HT_OP_MODE],
      m[CAC_TIME_SECONDS], m[CAC_TIME_LEFT_SECONDS], m[CHANNEL], m[SECONDARY_CHANNEL],
      m[IEEE80211N], m[IEEE80211AC], m[IEEE80211AX], m[BEACON_INT], m[DTIM_PERIOD],
      m[HT_CAPS_INFO], m[HT_MCS_BITMASK], m[SUPPORTED_RATES], m[MAX_TXPOWER],
      bss, bssid, ssid, num_sta)
  }

  lemma StringFieldsPresent(m: StrMap)
    requires AllPresent(m, STATUS_FIELDS)
    ensures STATE in m && PHY in m && FREQ in m && NUM_STA_NON_ERP in m && NUM_STA_NO_SHORT_SLOT_TIME in m
    ensures NUM_STA_NO_SHORT_PREAMBLE in m && OLBC in m
  {
    assert STATUS_FIELDS[0] in m && STATUS_FIELDS[1] in m && STATUS_FIELDS[2] in m && STATUS_FIELDS[3] in m;
    assert STATUS_FIELDS[4] in m && STATUS_FIELDS[5] in m && STATUS_FIELDS[6] in m;
  }

  lemma MoreStringFieldsPresent(m: StrMap)
    requires AllPresent(m, STATUS_FIELDS)
    ensures NUM_STA_HT_NO_GF in m && NUM_STA_NO_HT in m
    ensures NUM_STA_HT_20_MHZ in m && NUM_STA_HT40_INTOLERANT in m && OLBC_HT in m && HT_OP_MODE in m
  {
    assert STATUS_FIELDS[7] in m && STATUS_FIELDS[8] in m && STATUS_FIELDS[9] in m && STATUS_FIELDS[10] in m;
    assert STATUS_FIELDS[11] in m && STATUS_FIELDS[12] in m;
  }

  lemma RadioFieldsPresent(m: StrMap)
    requires AllPresent(m, STATUS_FIELDS)
    ensures CAC_TIME_SECONDS in m && CAC_TIME_LEFT_SECONDS in m && CHANNEL in m && SECONDARY_CHANNEL in m
    ensures IEEE80211N in m && IEEE80211AC in m
  {
    assert STATUS_FIELDS[13] in m && STATUS_FIELDS[14] in m && STATUS_FIELDS[15] in m;
    assert STATUS_FIELDS[16] in m && STATUS_FIELDS[17] in m && STATUS_FIELDS[18] in m;
  }

  lemma MoreRadioFieldsPresent(m: StrMap)
    requires AllPresent(m, STATUS_FIELDS)
    ensures IEEE80211AX in m && BEACON_INT in m && DTIM_PERIOD in m
    ensures HT_CAPS_INFO in m && HT_MCS_BITMASK in m && SUPPORTED_RATES in m && MAX_TXPOWER in m
  {
    assert STATUS_FIELDS[19] in m;
    assert STATUS_FIELDS[20] in m && STATUS_FIELDS[21] in m && STATUS_FIELDS[22] in m && STATUS_FIELDS[23] in m;
    assert STATUS_FIELDS[24] in m && STATUS_FIELDS[25] in m;
  }

  /**
   * Populates a `Status` from the map. The conversion of the four
   * `Vec<String>` fields is a parameter: serde's is `SerdeStringToVec`.
   */
  function PopulateStatus(m: StrMap, toVec: seq<byte> -> Result<seq<seq<byte>>, ConfigError>): (r: Result<Status, ConfigError>)
    ensures r.Ok? <==> (AllPresent(m, STATUS_FIELDS) && BSS in m && BSSID in m && SSID in m && NUM_STA in m
                        && toVec(m[BSS]).Ok? && toVec(m[BSSID]).Ok? && toVec(m[SSID]).Ok? && toVec(m[NUM_STA]).Ok?)
    ensures r.Ok? ==> StatusStringsFrom(r.value, m) && StatusSequencesFrom(r.value, m, toVec)
    ensures r.Err? && StatusConversionErrors(m, toVec) != {} ==> r.error in StatusConversionErrors(m, toVec)
    ensures r.Err? && StatusConversionErrors(m, toVec) == {} ==>
      FirstMissing(m, STATUS_FIELDS).Some? && r.error == MissingField(FirstMissing(m, STATUS_FIELDS).value)
  {
    if BSS in m && toVec(m[BSS]).Err? then Err(toVec(m[BSS]).error)
    else if BSSID in m && toVec(m[BSSID]).Err? then Err(toVec(m[BSSID]).error)
    else if SSID in m && toVec(m[SSID]).Err? then Err(toVec(m[SSID]).error)
    else if NUM_STA in m && toVec(m[NUM_STA]).Err? then Err(toVec(m[NUM_STA]).error)
    else match FirstMissing(m, STATUS_FIELDS)
      case Some(name) => Err(MissingField(name))
      case None =>
        assert STATUS_FIELDS[26] in m && STATUS_FIELDS[27] in m && STATUS_FIELDS[28] in m && STATUS_FIELDS[29] in m;
        Ok(StatusFrom(m, toVec(m[BSS]).value, toVec(m[BSSID]).value, toVec(m[SSID]).value, toVec(m[NUM_STA]).value))
  }

  // ---------------------------------------------------------------------------
  // from_response

  /**
   * `Config::from_response`: on failure the decoder's error comes back
   * wrapped in `ParsingWifiConfig` together with the response text as given.
   */
  function ConfigFromResponse(response: seq<byte>): (r: Result<Config, Error>)
    ensures r.Err? ==> r.error.ParsingWifiConfig? && r.error.s == response
    ensures ToMapSpec(response).Err? ==> r == Err(ParsingWifiConfig(ToMapSpec(response).error, response))
    ensures ToMapSpec(response).Ok? ==>
      match PopulateConfig(ToMapSpec(response).value)
      case Ok(c) => r == Ok(c)
      case Err(e) => r == Err(ParsingWifiConfig(e, response))
  {
    match DeserializeStr(response, PopulateConfig)
    case Ok(c) => Ok(c)
    case Err(e) => Err(ParsingWifiConfig(e, response))
  }

  /**
   * `Status::from_response`: on failure the decoder's error comes back
   * wrapped in `ParsingWifiStatus` together with the response text as given.
   */
  function StatusFromResponse(response: seq<byte>): (r: Result<Status, Error>)
    ensures r.Err? ==> r.error.ParsingWifiStatus? && r.error.s == response
    ensures ToMapSpec(response).Err? ==> r == Err(ParsingWifiStatus(ToMapSpec(response).error, response))
    ensures ToMapSpec(response).Ok? ==>
      match PopulateStatus(ToMapSpec(response).value, SerdeStringToVec)
      case Ok(st) => r == Ok(st)
      case Err(e) => r == Err(ParsingWifiStatus(e, response))
  {
    match DeserializeStr(response, m => PopulateStatus(m, SerdeStringToVec))
    case Ok(st) => Ok(st)
    case Err(e) => Err(ParsingWifiStatus(e, response))
  }
}
