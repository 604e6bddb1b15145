/**
 * The crate-wide error type of src/error.rs, reduced to the two variants the
 * decoder produces; each keeps the decoder's error and the whole response.
 */
module WifiError {
  import opened Bytes
  import opened ConfigCodec

  datatype Error =
    | ParsingWifiStatus(e: ConfigError, s: seq<byte>)
    | ParsingWifiConfig(e: ConfigError, s: seq<byte>)
}
