# wifi-ctrl response decoder, in Dafny

hostapd and wpa_supplicant answer requests on their control socket with
`key=value` lines. The daemon escapes each value with its `printf_encode`
scheme. `wifi-ctrl` decodes such a response in three layers, and this project
models all three on byte sequences:

1. **`unprintf`** (`ConfigCodec.Unprintf`) undoes the backslash escaping.
   - It handles `\n \r \t \e`, `\xHH` read with `u8::from_str_radix(_, 16)`, and any other escaped byte literally.
   - It then checks that the result is UTF-8, following the grammar in section 4 of RFC 3629 (`Utf8.ValidUtf8`).
   - The method keeps the source's byte loop and is proved equal to the pure `ConfigCodec.UnprintfSpec`.
2. **`to_map`** (`ConfigCodec.ToMap`) trims the response and walks its lines.
   - Each line is split at its first `=`. The raw key maps to the unescaped value, and a later line overwrites an earlier one.
   - The walk stops at the first line that fails.
   - The method's `for` loop is proved equal to `ConfigCodec.ToMapSpec`.
   - `ToMapSpec` is `BuildMap` over the lines, with the line parser passed as a parameter; `ToMapSpec` passes `ParseLine`.
3. **Record population** (`ApTypes`) covers `deserialize_str` and `from_response` for `Config` and `Status`.
   - serde's derived deserializer is replaced by one explicit population function per record.
   - Each one looks every field up by name, applies `deserialize_enabled_bool` / `deserialize_i32`, ignores unknown keys and reports a missing field.
   - Failures are wrapped, together with the whole response, in the crate's `Error`.

Rust strings are modelled as their UTF-8 bytes (`seq<byte>`, where `byte` is
an `int` in 0..255). The pieces of the Rust standard library the decoder uses
are written out in `StdStr`:
- `str::trim`
- `str::lines`
- `split_once`
- `i32` / `u8` parsing (`from_str_radix`)

`Utf8` holds `String::from_utf8`'s acceptance test.

The entities are datatypes with the Rust names of their variants and fields:
- `ConfigCodec.ConfigError` (src/config.rs:9-20): the five decoder errors, `SerdeError` carrying its message.
- `WifiError.Error` (src/error.rs:11-14): the two variants the decoder's callers produce, each holding the decoder's error and the whole response.
- `ApTypes.Status` (src/ap/types.rs:6-37): twenty-six `String` fields and the four `Vec<String>` fields `bss`, `bssid`, `ssid` and `num_sta`, as byte sequences and sequences of them.
- `ApTypes.Config` (src/ap/types.rs:50-61): six `String` fields, `wps_state` as a `bool` and `wpa` as an `i32`, a `newtype` over the 32-bit range.

The main results:
- **Escaping round trip.** `unprintf` inverts a `printf_encode`-style encoder on every UTF-8 value (`UnprintfOfEncoding`).
- **Whole-response round trip.** A `Config` written out as `key=value` lines, in any surrounding whitespace, is read back as the same `Config` (`ConfigRoundTrip`).
- **Documentation example.** The example in the documentation of `Config::from_response` decodes to the documented record (`ConfigDoctest.ConfigDoctest`).
- **`Status` never decodes.** `Status::from_response` fails on every response (`StatusNeverParses`).
  - serde hands the single string stored under `bss`, `bssid`, `ssid` or `num_sta` to a `Vec<String>` field, which rejects it.
  - A response without those keys lacks a required field.

Two behaviours of the code are worth stating outright:
- **Blank lines are not skipped.** An empty line inside the trimmed response has no `=` and fails the whole response with `MissingDelimterEqual` (`ToMapEmptyInteriorLine`).
- **Repeated keys are not collected.** `to_map` keeps the last value per key (`BuildMapLastWins`), and serde then rejects that single string for a `Vec<String>` field (`StatusNeverParses`).

## Model

| member | source | states |
|---|---|---|
| ConfigCodec.Custom | src/config.rs:22-29 | `custom` yields a `SerdeError` carrying the message unchanged |
| ConfigCodec.DecodeEscape | src/config.rs:53-70 | an escape consumes 1 to 3 bytes after the backslash, within the input, and fails only with `IncompleteEscape` or `InvalidEscape` |
| ConfigCodec.HexByte | src/config.rs:63-67 | the two bytes after `\x` are read by `std::str::from_utf8` and then `u8::from_str_radix(_, 16)`; nothing results when either step fails (characterised by `HexPair`) |
| ConfigCodec.Unescape | src/config.rs:51-74 | the unescaped bytes are never longer than the input; the escape pass fails only with `IncompleteEscape` or `InvalidEscape` |
| ConfigCodec.UnprintfSpec | src/config.rs:47-76 | a success is UTF-8 and no longer than the input; `NonUtf8Escape` is returned exactly when every escape was well formed but the bytes are not UTF-8; any other error is exactly an escape-pass failure |
| ConfigCodec.Unprintf | src/config.rs:47-76 | the byte-by-byte loop returns exactly `UnprintfSpec` of its input |
| ConfigCodec.ParseLine | src/config.rs:34-37 | a line fails with `MissingDelimterEqual` exactly when it holds no `=` |
| ConfigCodec.BuildMapStep | src/config.rs:33-38 | one loop iteration: a failing line ends the walk with its error; otherwise its key is inserted, overwriting any earlier value |
| ConfigCodec.BuildMap | src/config.rs:33-39 | the lines are inserted in order into an empty map, a later key overwriting an earlier one, and the first line whose parse fails ends the build with its error (characterised by the `BuildMap` lemmas) |
| ConfigCodec.BuildMapStopsAtError | src/config.rs:34-37 | once a prefix of the lines has failed, the lines after it do not change the result |
| ConfigCodec.ToMapSpec | src/config.rs:31-40 | `to_map` of a response: `BuildMap` over the lines of the trimmed response, each line parsed by `ParseLine` |
| ConfigCodec.ToMap | src/config.rs:31-40 | the loop over the trimmed response's lines returns exactly `ToMapSpec` of the response |
| ConfigCodec.DeserializeStr | src/config.rs:42-45 | a `to_map` error is returned unchanged; otherwise the result is the record population applied to the map |
| ConfigCodecLemmas.DecodeEscapeExtend | src/config.rs:53-68 | an escape is decoded from its own bytes: whatever follows it does not change the decoding |
| ConfigCodecLemmas.UnescapeConcat | src/config.rs:51-74 | after a prefix whose escapes are well formed, the rest is decoded independently and appended |
| ConfigCodecLemmas.UnescapePlain | src/config.rs:71 | input without a backslash passes the escape pass unchanged |
| ConfigCodecLemmas.UnprintfPlain | src/config.rs:71-75 | UTF-8 input without a backslash is returned unchanged |
| ConfigCodecLemmas.ControlEscapes | src/config.rs:54-57 | `\n`, `\r`, `\t`, `\e` decode to 0x0A, 0x0D, 0x09, 0x1B anywhere in the input |
| ConfigCodecLemmas.LiteralEscape | src/config.rs:69 | a backslash followed by any byte other than `n r t e x` yields that byte, so `\\` yields `\` |
| ConfigCodecLemmas.HexEscape | src/config.rs:58-68 | `\x` and two bytes yield the byte they denote in base 16 when `from_str_radix` accepts them, and fail with `InvalidEscape` otherwise, whatever follows |
| ConfigCodecLemmas.IncompleteEscapes | src/config.rs:53-61 | a trailing `\`, `\x` or `\x` plus one byte fails with `IncompleteEscape` |
| ConfigCodecLemmas.EscapeErrorWins | src/config.rs:53-75 | an escape error is reported before, and instead of, the UTF-8 check, and a bad `\x` escape aborts whatever follows it |
| ConfigCodecLemmas.HexPair | src/config.rs:63-67 | the two bytes after `\x` are accepted exactly when they are two hex digits or `+` and one hex digit, with the value of those digits |
| ConfigCodecLemmas.HexByteOfEncoding | src/config.rs:58-68 | the two lower-case hex digits of any byte decode back to that byte |
| ConfigCodecLemmas.UnescapeEncodeByte | src/config.rs:50-71 | each byte's `printf_encode` form unescapes to that byte |
| ConfigCodecLemmas.UnescapeOfEncoding | src/config.rs:50-74 | the escape pass inverts the encoder on every byte sequence |
| ConfigCodecLemmas.PrintfEncodePrintable | src/config.rs:50 | the encoder writes only printable ASCII, so an encoded value holds no line break |
| ConfigCodecLemmas.PrintfEncodeConcat | src/config.rs:50 | the encoder works byte by byte: encoding a concatenation concatenates the encodings |
| ConfigCodecLemmas.PrintfEncodePlain | src/config.rs:50 | printable ASCII other than `"` and `\` is written unchanged by the encoder |
| ConfigCodecLemmas.UnprintfOfEncoding | src/config.rs:47-76 | `unprintf` returns every UTF-8 value from its encoding |
| ConfigCodecLemmas.UnprintfExamples | src/config.rs:53-75 | `\x` is incomplete, `\xzz` is invalid, `\xff` is not UTF-8, `\x+f` is 0x0F, `\\` is `\` |
| ConfigCodecLemmas.ParseLineAt | src/config.rs:34-37 | a line is keyed by the raw text before its first `=` and holds `unprintf` of the rest, which may contain `=`; an `unprintf` error is the line's error |
| ConfigCodecLemmas.BuildMapFirstError | src/config.rs:33-37 | the error of the first failing line is the result |
| ConfigCodecLemmas.BuildMapAllParse | src/config.rs:33-39 | the walk succeeds exactly when every line parses |
| ConfigCodecLemmas.BuildMapKeys | src/config.rs:34-37 | every line's key is a key of the resulting map |
| ConfigCodecLemmas.BuildMapLastWins | src/config.rs:37 | every key of the map holds the value of the last line carrying that key |
| ConfigCodecLemmas.ToMapBlankResponse | src/config.rs:32-39 | an empty or all-whitespace response yields the empty map |
| ConfigCodecLemmas.ToMapEmptyInteriorLine | src/config.rs:33-36 | an empty line between two lines fails the whole response with `MissingDelimterEqual` |
| ConfigCodecLemmas.EntryLineParses | src/config.rs:34-37 | `key=` plus the encoded value parses back to the key and the value, for a key free of `=` and a UTF-8 value |
| ConfigCodecLemmas.BuildMapOfDistinctKeys | src/config.rs:32-39 | lines with distinct keys build the map from exactly those keys to their values |
| ConfigCodecLemmas.EntryLinesOfResponse | src/config.rs:33 | after trimming, the joined entry lines are exactly the lines `to_map` walks, and each one parses |
| ConfigCodecLemmas.ToMapOfEntries | src/config.rs:31-40 | a response of encoded `key=value` lines with distinct keys, in any surrounding whitespace, decodes to the map from exactly those keys to their values |
| StdStr.TrimStart | src/config.rs:33 | only leading whitespace is removed, and the rest does not start with whitespace |
| StdStr.TrimEnd | src/config.rs:33 | only trailing whitespace is removed, and the rest does not end with whitespace |
| StdStr.Trim | src/config.rs:33 | `str::trim`: leading whitespace removed, then trailing whitespace (characterised by `TrimEmpty` and `TrimFramed`) |
| StdStr.TrimEmpty | src/config.rs:33 | `trim` gives the empty text exactly when the response is all whitespace |
| StdStr.TrimFramed | src/config.rs:33 | `trim` removes exactly the whitespace around a text that starts and ends with a non-whitespace byte |
| StdStr.IndexOf | src/config.rs:34-35 | the index found is the first occurrence of the byte; none is found exactly when the byte is absent |
| StdStr.SplitOnce | src/config.rs:34-35 | a split puts the text back together around the delimiter, with no delimiter in the first part; it fails exactly when the delimiter is absent |
| StdStr.SplitOnceAt | src/config.rs:34-35 | splitting at the first delimiter returns the delimiter-free head and all of the rest |
| StdStr.Lines | src/config.rs:33 | no line holds a line feed, and there are no lines exactly for the empty text |
| StdStr.LinesCrLf | src/config.rs:33 | a line ended by `\r\n` is returned without the `\r` and the `\n`, and the lines after it follow |
| StdStr.LinesKeepLoneCr | src/config.rs:33 | example: a `\r` at the end of the text with no `\n` after it stays in the last line |
| StdStr.LinesOfJoin | src/config.rs:33 | `lines()` recovers lines joined by line feeds when none of them ends in a carriage return and the last is not empty |
| StdStr.FromStrRadix | src/config.rs:63-67 | an accepted text is non-empty, has an optional `+` (or `-` when signed) and then only digits of the radix, with at least one digit |
| StdStr.FromStrRadixDigits | src/config.rs:63-67 | conversely, an optional `+` (or `-` for a signed type) followed by at least one digit of the radix is accepted, with the value of those digits, negated after `-` |
| StdStr.U8FromStrRadix16 | src/config.rs:63-67 | `u8::from_str_radix(_, 16)`: the `from_str_radix` value when it lies in 0..255, nothing otherwise |
| StdStr.ParseI32 | src/ap/types.rs:110 | `str::parse::<i32>`: the decimal `from_str_radix` value when it lies in the `i32` range, nothing otherwise |
| StdStr.ParseFormatI32 | src/ap/types.rs:110-111 | parsing the decimal text of any `i32` gives that `i32` back |
| StdStr.ParseI32Overflow | src/ap/types.rs:110-112 | decimal texts beyond the `i32` range on either side are rejected |
| StdStr.ParseI32Syntax | src/ap/types.rs:110 | an accepted text is an optional sign followed by decimal digits, at least one |
| StdStr.ParseI32Digits | src/ap/types.rs:110-112 | every optional sign followed by decimal digits (leading zeros, `+` and `-0` included) is accepted with its value when that value fits in an `i32`, and refused when it does not |
| Utf8.CharWidth | src/config.rs:75 | a UTF8-char at the head of the bytes spans at most four bytes, all present |
| Utf8.ValidUtf8 | src/config.rs:75 | `String::from_utf8`'s acceptance test: the bytes are a sequence of RFC 3629 UTF8-chars |
| Utf8.ValidUtf8Concat | src/config.rs:75 | two UTF-8 texts concatenated form a UTF-8 text |
| Utf8.AsciiIsValidUtf8 | src/config.rs:75 | ASCII bytes are UTF-8 |
| Utf8.EncodeScalarIsValid | src/config.rs:75 | the encoding of every Unicode scalar value is one accepted UTF8-char |
| Utf8.CharWidthIsEncoding | src/config.rs:75 | conversely, every UTF8-char the grammar accepts is the encoding of a Unicode scalar value, so no overlong form, encoded surrogate or code point above U+10FFFF is accepted |
| Utf8.OverlongRejected | src/config.rs:75 | example: the overlong form `C0 80` of U+0000 is rejected |
| Utf8.SurrogateRejected | src/config.rs:75 | example: `ED A0 80`, the encoding of the surrogate U+D800, is rejected |
| Utf8.BeyondRangeRejected | src/config.rs:75 | example: `F4 90 80 80`, which would be U+110000, is rejected |
| ApTypes.DeserializeEnabledBool | src/ap/types.rs:91-102 | exactly `enabled` gives true and exactly `disabled` gives false; anything else is serde's unknown-variant error, a `SerdeError` |
| ApTypes.UnknownVariant | src/ap/types.rs:100 | serde's `unknown_variant` error for the rejected text, naming `enabled` and `disabled` as the expected values, raised through `custom` |
| ApTypes.DeserializeI32 | src/ap/types.rs:104-114 | succeeds exactly when the text parses as a decimal `i32`, with that value; otherwise `SerdeError("invalid int")` |
| ApTypes.InvalidInt | src/ap/types.rs:112 | the `custom("invalid int")` error |
| ApTypes.SerdeStringToVec | src/ap/types.rs:33-36 | a single string handed to a `Vec<String>` field always fails with a `SerdeError` |
| ApTypes.InvalidTypeForSeq | src/ap/types.rs:33-36 | serde's `invalid_type` error for a string where a sequence is expected, raised through `custom` |
| ApTypes.FirstMissing | src/ap/types.rs:50-61 | none exactly when every field is present; otherwise the first absent field in declaration order |
| ApTypes.MissingField | src/ap/types.rs:50-61 | serde's `missing field` error naming the field, raised through `custom` |
| ApTypes.PopulateConfig | src/ap/types.rs:49-61 | a `Config` results exactly when all eight keys are present and `wps_state`/`wpa` convert, with each field the map's value converted; otherwise a conversion error of a present field, or else the first missing field |
| ApTypes.StatusFrom | src/ap/types.rs:6-37 | every string field of the `Status` is the map's value under its name |
| ApTypes.PopulateStatus | src/ap/types.rs:5-37 | a `Status` results exactly when all thirty keys are present and the four sequence fields convert, with each field taken from the map; otherwise a conversion error of a present sequence field, or else the first missing field |
| ApTypes.ConfigFromResponse | src/ap/types.rs:83-88 | success is the populated `Config`; every failure is `ParsingWifiConfig` holding the decoder's error and exactly the response |
| ApTypes.StatusFromResponse | src/ap/types.rs:39-45 | success is the populated `Status`; every failure is `ParsingWifiStatus` holding the decoder's error and exactly the response |
| ApTypesLemmas.EnabledBoolRoundTrip | src/ap/types.rs:97-99 | the token written for a flag reads back as that flag |
| ApTypesLemmas.DeserializeI32RoundTrip | src/ap/types.rs:110-111 | the decimal text of any `i32` reads back as that `i32` |
| ApTypesLemmas.DeserializeI32OutOfRange | src/ap/types.rs:110-112 | numbers outside the `i32` range fail with `invalid int` |
| ApTypesLemmas.FirstMissingIgnores | src/ap/types.rs:50-61 | a key that names no field does not change which field is reported missing |
| ApTypesLemmas.PopulateConfigIgnoresUnknownKeys | src/ap/types.rs:49-61 | adding a key that names no field of `Config` does not change the outcome |
| ApTypesLemmas.PopulateStatusIgnoresUnknownKeys | src/ap/types.rs:5-37 | adding a key that names no field of `Status` does not change the outcome |
| ApTypesLemmas.StatusFromIgnores | src/ap/types.rs:6-37 | the string fields of a `Status` read the same after a key naming no field is added |
| ApTypesLemmas.StatusNeverParses | src/ap/types.rs:33-45 | `Status::from_response` fails on every response |
| ApTypesLemmas.ConfigFromBlankResponse | src/ap/types.rs:83-88 | an all-whitespace response fails with the missing field `bssid` |
| ApTypesLemmas.PopulateConfigOfLines | src/ap/types.rs:50-61 | a map holding each field's written value populates exactly that `Config` |
| ApTypesLemmas.ConfigRoundTrip | src/ap/types.rs:83-88 | a `Config` with UTF-8 strings, written as encoded `key=value` lines in any surrounding whitespace, decodes to itself |
| ConfigDoctest.EncodeShrug | src/ap/types.rs:69 | the documented SSID line holds the encoding of `¯\_(ツ)_/¯` |
| ConfigDoctest.DocMap | src/ap/types.rs:67-77 | the documented response decodes to a map holding each line's value under its key, `wpa_state` included |
| ConfigDoctest.ConfigDoctest | src/ap/types.rs:65-82 | the documented response decodes to the documented `Config`: `wps_state` true, `wpa` 12, SSID `¯\_(ツ)_/¯`, and `wpa_state` ignored |

## Left out

- Sockets, request sending, event multiplexing, timeouts and the rest of the crate: the decoder is called with the response already in hand.
- src/error.rs beyond the two variants the decoder produces (lines 11-14): the other variants carry I/O and channel errors of foreign types.
- The `thiserror` display strings of `ConfigError` and `Error`: formatting only.
- StdStr.Trim: only ASCII whitespace (bytes 9 to 13 and 32) is trimmed. `str::trim` also removes non-ASCII Unicode white space, which a daemon response does not start or end with.
- StdStr.Lines: models the current `str::lines`, which strips one `\r` only before a `\n`. Once the response is trimmed, this agrees with older releases that also stripped a final lone `\r`.
- ApTypes.PopulateConfig: when both `wps_state` and `wpa` are present and bad, the contract says only that one of their errors is returned. serde reports whichever its walk over the `HashMap` meets first.
- ApTypes.PopulateStatus: when several of the sequence fields are present and bad, the contract says only that one of their errors is returned, for the same `HashMap` order reason.
- ApTypes.InvalidTypeForSeq: serde's `invalid_type` error prints the rejected string with Rust's `Debug` formatting, which escapes `"`, `\` and control characters; the model puts the raw bytes between the quotes. Only the fact that the conversion fails matters to the contracts.
- ApTypes.MissingField: the message text follows serde's `missing field` wording. Only the field named matters to the contracts.
- serde's generic `MapDeserializer` and derive machinery: replaced by the explicit per-record population functions.
- The `printf_encode` encoder is the daemon's code, not this crate's. `ConfigCodecLemmas.PrintfEncode` is a reference encoder. It escapes `"` and `\`, writes ESC, LF, CR and TAB as letter escapes, keeps printable ASCII and writes every other byte as `\xHH`. It is used only to state round trips.
