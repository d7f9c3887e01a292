/**
 * The values the formatters take from outside the byte-level logic:
 * `f32::from_str` and chrono's `NaiveTime::parse_from_str`. Their results are
 * kept opaque (an `f32` is its 32-bit pattern, a time its four fields) and
 * the parsers themselves are parameters, so every statement about the
 * formatters holds whatever these parsers accept.
 */
module Oracles {
  import opened Wrappers
  import opened StdParse

  /** An `f32`, as its IEEE 754 bit pattern; no arithmetic on it is modelled. */
  type F32 = bits: nat | bits < 0x1_0000_0000

  /** `0.0`, the value `unwrap_or(0.0)` and `unwrap_or_default()` fall back to. */
  const Zero: F32 := 0

  /** chrono's `NaiveTime`: a time of day with nanoseconds. */
  datatype NaiveTime = NaiveTime(hour: nat, minute: nat, second: nat, nanosecond: nat)

  /** `NaiveTime::default()`, midnight. */
  const Midnight := NaiveTime(0, 0, 0, 0)

  /** The two formats `GGA::from_field` tries: `%H%M%S%.f` and `%H%M%S`. */
  datatype TimeFormat = FractionalSeconds | WholeSeconds

  /**
   * The outside parsers, both applied to the bytes of a field (which the
   * source first turns into a `String`, one `char` per byte).
   */
  datatype Parsers = Parsers(
    float: seq<u8> -> Option<F32>,
    time: (seq<u8>, TimeFormat) -> Option<NaiveTime>)

  /** `f32::from_str(text).unwrap_or(0.0)`, also `unwrap_or_default()`. */
  function FloatOrZero(p: Parsers, text: seq<u8>): (v: F32)
    ensures p.float(text).Some? ==> v == p.float(text).value
    ensures p.float(text).None? ==> v == Zero
  {
    match p.float(text)
    case Some(v) => v
    case None => Zero
  }

  /**
   * The time of a GGA sentence: with fractional seconds if that parses, else
   * with whole seconds, else midnight.
   */
  function ParseTime(p: Parsers, text: seq<u8>): (t: NaiveTime)
    ensures p.time(text, FractionalSeconds).Some? ==> t == p.time(text, FractionalSeconds).value
    ensures p.time(text, FractionalSeconds).None? && p.time(text, WholeSeconds).Some? ==> t == p.time(text, WholeSeconds).value
    ensures p.time(text, FractionalSeconds).None? && p.time(text, WholeSeconds).None? ==> t == Midnight
  {
    match p.time(text, FractionalSeconds)
    case Some(t) => t
    case None =>
      match p.time(text, WholeSeconds)
      case Some(t) => t
      case None => Midnight
  }
}
