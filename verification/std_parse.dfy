/**
 * The pieces of Rust's standard library the decoder leans on, at the level of
 * bytes: unsigned integer parsing (`u8::from_str`, `u16::from_str`,
 * `u8::from_str_radix(_, 16)`) and `str::trim`.
 *
 * Every text the decoder parses is built by mapping each byte to the `char`
 * with the same code point, so a byte of 0x80 or above becomes a non-ASCII
 * character. Such a character is never a digit, and the two of them that are
 * Unicode white space (U+0085 and U+00A0) are trimmed like ASCII white space.
 */
module StdParse {
  import opened Wrappers

  /** Rust's `u8` and `u16`. */
  type u8 = x: int | 0 <= x < 0x100
  type u16 = x: int | 0 <= x < 0x1_0000

  const Plus: u8 := 0x2B

  /** The character a byte becomes under `byte as char`. */
  function ByteChar(b: u8): (c: char)
    ensures c as int == b
  {
    b as char
  }

  /** The text `iter().map(|byte| *byte as char).collect::<String>()` builds from bytes. */
  function Text(bytes: seq<u8>): (t: seq<char>)
    ensures |t| == |bytes| && forall k :: 0 <= k < |bytes| ==> t[k] == ByteChar(bytes[k])
  {
    seq(|bytes|, k requires 0 <= k < |bytes| => ByteChar(bytes[k]))
  }

  /** `char::is_whitespace` for the code points 0 to 255. */
  predicate IsWhitespace(b: u8)
  {
    b == 0x09 || b == 0x0A || b == 0x0B || b == 0x0C || b == 0x0D
    || b == 0x20 || b == 0x85 || b == 0xA0
  }

  /** `char::to_digit(radix)` for radix 10 and 16. */
  function DigitValue(b: u8, radix: nat): (d: Option<nat>)
    requires radix == 10 || radix == 16
    ensures d.Some? ==> d.value < radix
    ensures d.Some? <==> (0x30 <= b <= 0x39) || (radix == 16 && (0x41 <= b <= 0x46 || 0x61 <= b <= 0x66))
  {
    if 0x30 <= b <= 0x39 then Some(b - 0x30)
    else if radix == 16 && 0x41 <= b <= 0x46 then Some(b - 0x41 + 10)
    else if radix == 16 && 0x61 <= b <= 0x66 then Some(b - 0x61 + 10)
    else None
  }

  predicate IsDigit(b: u8, radix: nat)
    requires radix == 10 || radix == 16
  {
    DigitValue(b, radix).Some?
  }

  /** The positional value of a run of digits, most significant first. */
  function DigitsValue(ds: seq<u8>, radix: nat): (v: Option<nat>)
    requires radix == 10 || radix == 16
    ensures v.Some? <==> forall i :: 0 <= i < |ds| ==> IsDigit(ds[i], radix)
    decreases |ds|
  {
    if ds == [] then Some(0)
    else
      match DigitsValue(ds[..|ds| - 1], radix)
      case None => None
      case Some(high) =>
        match DigitValue(ds[|ds| - 1], radix)
        case None => None
        case Some(low) => Some(high * radix + low)
  }

  /** The digits of an unsigned literal: one leading `+` is allowed and dropped. */
  function DigitPart(s: seq<u8>): (ds: seq<u8>)
    ensures ds == s || (|s| > 0 && s[0] == Plus && ds == s[1..])
  {
    if |s| > 0 && s[0] == Plus then s[1..] else s
  }

  /**
   * `from_str_radix` for an unsigned type whose largest value is `max`: the
   * text is an optional `+` and at least one digit, with no sign, space or
   * other character, and its value must fit.
   */
  function ParseUnsigned(s: seq<u8>, radix: nat, max: nat): (r: Option<nat>)
    requires radix == 10 || radix == 16
    ensures r.Some? ==> r.value <= max
    ensures r.Some? <==> DigitsValue(DigitPart(s), radix).Some? && DigitPart(s) != [] && DigitsValue(DigitPart(s), radix).value <= max
  {
    var ds := DigitPart(s);
    if ds == [] then None
    else
      match DigitsValue(ds, radix)
      case None => None
      case Some(v) => if v <= max then Some(v) else None
  }

  /** `u8::from_str` */
  function ParseU8(s: seq<u8>): (r: Option<u8>)
    ensures r.Some? <==> ParseUnsigned(s, 10, 255).Some?
    ensures r.Some? ==> r.value == ParseUnsigned(s, 10, 255).value
  {
    match ParseUnsigned(s, 10, 255)
    case None => None
    case Some(v) => Some(v)
  }

  /** `u16::from_str` */
  function ParseU16(s: seq<u8>): (r: Option<u16>)
    ensures r.Some? <==> ParseUnsigned(s, 10, 0xFFFF).Some?
    ensures r.Some? ==> r.value == ParseUnsigned(s, 10, 0xFFFF).value
  {
    match ParseUnsigned(s, 10, 0xFFFF)
    case None => None
    case Some(v) => Some(v)
  }

  /** `str::trim_start` */
  function TrimStart(s: seq<u8>): (r: seq<u8>)
    ensures |r| <= |s| && r == s[|s| - |r|..]
    ensures forall i :: 0 <= i < |s| - |r| ==> IsWhitespace(s[i])
    ensures r == [] || !IsWhitespace(r[0])
    decreases |s|
  {
    if s != [] && IsWhitespace(s[0]) then TrimStart(s[1..]) else s
  }

  /** `str::trim_end` */
  function TrimEnd(s: seq<u8>): (r: seq<u8>)
    ensures |r| <= |s| && r == s[..|r|]
    ensures forall i :: |r| <= i < |s| ==> IsWhitespace(s[i])
    ensures r == [] || !IsWhitespace(r[|r| - 1])
    decreases |s|
  {
    if s != [] && IsWhitespace(s[|s| - 1]) then TrimEnd(s[..|s| - 1]) else s
  }

  predicate AllWhitespace(s: seq<u8>)
  {
    forall k :: 0 <= k < |s| ==> IsWhitespace(s[k])
  }

  /** White space appended to a text makes no difference to `trim_end`. */
  lemma {:induction false} TrimEndDropsWhitespace(s: seq<u8>, pad: seq<u8>)
    requires AllWhitespace(pad)
    ensures TrimEnd(s + pad) == TrimEnd(s)
    decreases |pad|
  {
    if pad == [] {
      assert s + pad == s;
    } else {
      assert (s + pad)[..|s + pad| - 1] == s + pad[..|pad| - 1];
      TrimEndDropsWhitespace(s, pad[..|pad| - 1]);
    }
  }

  /** `trim_end` stops at the last byte that is not white space. */
  lemma TrimEndAt(s: seq<u8>, n: nat)
    requires n <= |s| && forall k :: n <= k < |s| ==> IsWhitespace(s[k])
    requires n == 0 || !IsWhitespace(s[n - 1])
    ensures TrimEnd(s) == s[..n]
  {
  }

  /**
   * `str::trim`: `trim_end` of `trim_start`. The result is a stretch of `s`
   * after its leading white space, followed only by white space in `s`, and
   * it neither starts nor ends with white space.
   */
  function Trim(s: seq<u8>): (r: seq<u8>)
    ensures var t := TrimStart(s);
      && |r| <= |t| && r == t[..|r|] && t == s[|s| - |t|..]
      && (forall k :: 0 <= k < |s| - |t| ==> IsWhitespace(s[k]))
      && (forall k :: |r| <= k < |t| ==> IsWhitespace(t[k]))
    ensures r == [] || (!IsWhitespace(r[0]) && !IsWhitespace(r[|r| - 1]))
  {
    TrimEnd(TrimStart(s))
  }

  /** White space in front of a text that does not start with it is what `trim_start` drops. */
  lemma {:induction false} TrimStartSkips(pad: seq<u8>, s: seq<u8>)
    requires AllWhitespace(pad) && (s == [] || !IsWhitespace(s[0]))
    ensures TrimStart(pad + s) == s
    decreases |pad|
  {
    if pad == [] {
      assert pad + s == s;
    } else {
      assert (pad + s)[1..] == pad[1..] + s;
      TrimStartSkips(pad[1..], s);
    }
  }

  /** Trimming a text padded with white space on both sides gives back the text, when it has none at its ends. */
  lemma TrimOfPadded(front: seq<u8>, s: seq<u8>, back: seq<u8>)
    requires AllWhitespace(front) && AllWhitespace(back)
    requires s == [] || (!IsWhitespace(s[0]) && !IsWhitespace(s[|s| - 1]))
    ensures Trim(front + s + back) == s
  {
    if s == [] {
      assert front + s + back == (front + back) + [];
      TrimStartSkips(front + back, []);
    } else {
      assert front + s + back == front + (s + back);
      TrimStartSkips(front, s + back);
      TrimEndDropsWhitespace(s, back);
      TrimEndAt(s, |s|);
    }
  }

  /** Two hexadecimal digits parse as a byte, the first one the high nibble. */
  lemma TwoHexDigitsParse(t: seq<u8>)
    ensures |t| == 2 && IsDigit(t[0], 16) && IsDigit(t[1], 16) ==>
      ParseUnsigned(t, 16, 255) == Some(DigitValue(t[0], 16).value * 16 + DigitValue(t[1], 16).value)
  {
    if |t| == 2 && IsDigit(t[0], 16) && IsDigit(t[1], 16) {
      assert DigitPart(t) == t;
      assert t[..1] == [t[0]];
      assert [t[0]][..0] == [];
      assert DigitsValue(t[..1], 16) == Some(DigitValue(t[0], 16).value);
    }
  }

  /** An upper-case hexadecimal digit, as NMEA writes checksums. */
  function HexDigit(n: nat): (b: u8)
    requires n < 16
    ensures DigitValue(b, 16) == Some(n)
  {
    if n < 10 then 0x30 + n else 0x41 + n - 10
  }

  /** The two upper-case hex digits of a byte. */
  function Hex2(x: u8): (h: seq<u8>)
    ensures |h| == 2
  {
    [HexDigit(x / 16), HexDigit(x % 16)]
  }

  lemma Hex2Parses(x: u8)
    ensures ParseUnsigned(Hex2(x), 16, 255) == Some(x)
  {
    var h := Hex2(x);
    assert h[..1] == [h[0]];
    assert [h[0]][..0] == [];
    assert DigitsValue(h[..1], 16) == Some(x / 16);
  }

  // ---------------------------------------------------------------------
  // Decimal digits

  /** Bytes below 0x80, each of which is one character of the text. */
  predicate Ascii(t: seq<u8>)
  {
    forall i :: 0 <= i < |t| ==> t[i] < 0x80
  }

  /** A run of at most `n` digits, `+` or not, is below `10^n`. */
  lemma {:induction false} DigitsBelow(ds: seq<u8>)
    ensures DigitsValue(ds, 10).Some? ==> DigitsValue(ds, 10).value < Pow10(|ds|)
    decreases |ds|
  {
    if ds != [] {
      DigitsBelow(ds[..|ds| - 1]);
    }
  }

  function Pow10(n: nat): (p: nat)
    ensures p >= 1
  {
    if n == 0 then 1 else 10 * Pow10(n - 1)
  }

  lemma {:induction false} PowMonotone(m: nat, n: nat)
    requires m <= n
    ensures Pow10(m) <= Pow10(n)
    decreases n
  {
    if m < n {
      PowMonotone(m, n - 1);
    }
  }

  /** `n` as exactly `width` decimal digits, zero-padded, as NMEA writes degrees and satellite ids. */
  function PaddedDigits(n: nat, width: nat): (ds: seq<u8>)
    ensures |ds| == width && Ascii(ds)
    ensures forall i :: 0 <= i < width ==> 0x30 <= ds[i] <= 0x39
  {
    if width == 0 then [] else PaddedDigits(n / 10, width - 1) + [0x30 + n % 10]
  }

  lemma {:induction false} PaddedDigitsValue(n: nat, width: nat)
    requires n < Pow10(width)
    ensures DigitsValue(PaddedDigits(n, width), 10) == Some(n)
    decreases width
  {
    if width > 0 {
      var ds := PaddedDigits(n, width);
      assert ds[..width - 1] == PaddedDigits(n / 10, width - 1);
      PaddedDigitsValue(n / 10, width - 1);
    }
  }

  /** Zero-padded digits parse back to their number. */
  lemma PaddedDigitsParse(n: nat, width: nat, max: nat)
    requires 1 <= width && n < Pow10(width) && n <= max
    ensures ParseUnsigned(PaddedDigits(n, width), 10, max) == Some(n)
  {
    PaddedDigitsValue(n, width);
    assert DigitPart(PaddedDigits(n, width)) == PaddedDigits(n, width);
  }
}
