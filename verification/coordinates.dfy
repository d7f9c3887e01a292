/**
 * `Coordinate` and its two constructors from text, `from_latitude_string`
 * and `from_longitude_string`: a fixed number of degree digits, the minutes
 * after them, and a hemisphere letter, checked in that order.
 *
 * The text is a `String` built from the field's bytes one `char` per byte,
 * so a byte of 0x80 or above takes two bytes in it: `len()` and the slice
 * positions count those UTF-8 bytes, and a slice that would cut such a
 * character in two panics.
 */
module Coordinates {
  import opened Wrappers
  import opened StdParse
  import opened Oracles

  /** Whole degrees, the minutes as parsed, and the hemisphere letter. */
  datatype Coordinate = Coordinate(degrees: u16, minutes: F32, direction: char)

  datatype CoordinateError =
    | ParseIntError
    | ParseFloatError
    | InvalidDirection(direction: char)
    | InvalidLength(direction: char)

  /** `Coordinate::default()` */
  const Default := Coordinate(0, Zero, 'X')

  datatype Axis = Latitude | Longitude

  /** How many characters of degrees the text starts with. */
  function DegreeWidth(axis: Axis): nat
  {
    match axis
    case Latitude => 2
    case Longitude => 3
  }

  /** `N`/`S` for a latitude, `E`/`W` for a longitude. */
  predicate IsDirection(axis: Axis, c: char)
  {
    match axis
    case Latitude => c == 'N' || c == 'S'
    case Longitude => c == 'E' || c == 'W'
  }

  // ---------------------------------------------------------------------
  // Lengths and slices of the text

  /** The UTF-8 length of the `char` a byte becomes. */
  function Utf8Width(b: u8): nat
  {
    if b < 0x80 then 1 else 2
  }

  /** `String::len` of the text built from `t`. */
  function Utf8Len(t: seq<u8>): (n: nat)
    ensures n >= |t|
    decreases |t|
  {
    if t == [] then 0 else Utf8Width(t[0]) + Utf8Len(t[1..])
  }

  lemma {:induction false} Utf8LenAppend(a: seq<u8>, b: seq<u8>)
    ensures Utf8Len(a + b) == Utf8Len(a) + Utf8Len(b)
    decreases |a|
  {
    if a != [] {
      assert (a + b)[0] == a[0] && (a + b)[1..] == a[1..] + b;
      Utf8LenAppend(a[1..], b);
    } else {
      assert a + b == b;
    }
  }

  lemma {:induction false} AsciiLength(t: seq<u8>)
    requires Ascii(t)
    ensures Utf8Len(t) == |t|
    decreases |t|
  {
    if t != [] {
      AsciiLength(t[1..]);
    }
  }

  /**
   * How many characters fill exactly the first `n` bytes of the text, or
   * `None` when byte `n` falls inside a character or past the end, where
   * slicing the `String` panics.
   */
  function CharsInBytes(t: seq<u8>, n: nat): (r: Option<nat>)
    ensures r.Some? ==> r.value <= |t| && Utf8Len(t[..r.value]) == n
    decreases |t|
  {
    if n == 0 then Some(0)
    else if t == [] || Utf8Width(t[0]) > n then None
    else
      match CharsInBytes(t[1..], n - Utf8Width(t[0]))
      case Some(k) =>
        assert t[..k + 1][1..] == t[1..][..k];
        Some(k + 1)
      case None => None
  }

  /** ... and when there is none, no prefix of the text is `n` bytes long. */
  lemma {:induction false} NoCharBoundary(t: seq<u8>, n: nat, i: nat)
    requires CharsInBytes(t, n).None? && i <= |t|
    ensures Utf8Len(t[..i]) != n
    decreases |t|
  {
    if i > 0 {
      assert t[..i][1..] == t[1..][..i - 1];
      if Utf8Width(t[0]) <= n {
        NoCharBoundary(t[1..], n - Utf8Width(t[0]), i - 1);
      }
    }
  }

  /** An ASCII prefix ends on a character boundary. */
  lemma {:induction false} AsciiPrefixBoundary(a: seq<u8>, b: seq<u8>)
    requires Ascii(a)
    ensures CharsInBytes(a + b, |a|) == Some(|a|)
    decreases |a|
  {
    if a != [] {
      assert (a + b)[1..] == a[1..] + b;
      AsciiPrefixBoundary(a[1..], b);
    }
  }

  // ---------------------------------------------------------------------
  // Parsing

  /** The texts the source slices without panicking: too short to slice, or cut on a character boundary. */
  predicate Sliceable(axis: Axis, text: seq<u8>)
  {
    Utf8Len(text) < DegreeWidth(axis) + 2 || CharsInBytes(text, DegreeWidth(axis)).Some?
  }

  /** The characters of degrees, once the text is long enough. */
  function DegreeChars(axis: Axis, text: seq<u8>): (k: nat)
    requires Sliceable(axis, text) && Utf8Len(text) >= DegreeWidth(axis) + 2
    ensures k <= |text| && Utf8Len(text[..k]) == DegreeWidth(axis)
  {
    CharsInBytes(text, DegreeWidth(axis)).value
  }

  /**
   * The body the two constructors share: the length check, then the degrees
   * as a `u16`, then the minutes as an `f32`, then the direction; the first
   * check that fails decides the error.
   */
  function ParseCoordinate(axis: Axis, text: seq<u8>, direction: char, p: Parsers): (r: Result<Coordinate, CoordinateError>)
    requires Sliceable(axis, text)
    ensures r == Err(InvalidLength(direction)) <==> Utf8Len(text) < DegreeWidth(axis) + 2
    ensures Utf8Len(text) >= DegreeWidth(axis) + 2 ==>
      var k := DegreeChars(axis, text);
      var degrees, minutes := ParseU16(text[..k]), p.float(text[k..]);
      && (r == Err(ParseIntError) <==> degrees.None?)
      && (r == Err(ParseFloatError) <==> degrees.Some? && minutes.None?)
      && (r == Err(InvalidDirection(direction)) <==> degrees.Some? && minutes.Some? && !IsDirection(axis, direction))
      && (r.Ok? <==> degrees.Some? && minutes.Some? && IsDirection(axis, direction))
      && (r.Ok? ==> r.value == Coordinate(degrees.value, minutes.value, direction))
  {
    if Utf8Len(text) < DegreeWidth(axis) + 2 then Err(InvalidLength(direction))
    else
      var k := DegreeChars(axis, text);
      match ParseU16(text[..k])
      case None => Err(ParseIntError)
      case Some(degrees) =>
        match p.float(text[k..])
        case None => Err(ParseFloatError)
        case Some(minutes) =>
          if !IsDirection(axis, direction) then Err(InvalidDirection(direction))
          else Ok(Coordinate(degrees, minutes, direction))
  }

  /** The degrees are at most `width` digits, so below `10^width`. */
  lemma DegreesBelow(axis: Axis, text: seq<u8>)
    requires Sliceable(axis, text)
    ensures Utf8Len(text) >= DegreeWidth(axis) + 2 ==>
      var d := ParseU16(text[..DegreeChars(axis, text)]);
      d.Some? ==> d.value < Pow10(DegreeWidth(axis))
  {
    if Utf8Len(text) >= DegreeWidth(axis) + 2 {
      var s := text[..DegreeChars(axis, text)];
      var ds := DigitPart(s);
      DigitsBelow(ds);
      PowMonotone(|ds|, DegreeWidth(axis));
    }
  }

  /** `Coordinate::from_latitude_string` */
  function FromLatitudeString(coord: seq<u8>, direction: char, p: Parsers): (r: Result<Coordinate, CoordinateError>)
    requires Sliceable(Latitude, coord)
    ensures r == Err(InvalidLength(direction)) <==> Utf8Len(coord) < 4
    ensures r.Ok? ==> r.value.direction == direction && (direction == 'N' || direction == 'S') && r.value.degrees < 100
    ensures r.Err? && r.error.InvalidDirection? ==> direction != 'N' && direction != 'S'
  {
    DegreesBelow(Latitude, coord);
    ParseCoordinate(Latitude, coord, direction, p)
  }

  /** `Coordinate::from_longitude_string` */
  function FromLongitudeString(coord: seq<u8>, direction: char, p: Parsers): (r: Result<Coordinate, CoordinateError>)
    requires Sliceable(Longitude, coord)
    ensures r == Err(InvalidLength(direction)) <==> Utf8Len(coord) < 5
    ensures r.Ok? ==> r.value.direction == direction && (direction == 'E' || direction == 'W') && r.value.degrees < 1000
    ensures r.Err? && r.error.InvalidDirection? ==> direction != 'E' && direction != 'W'
  {
    DegreesBelow(Longitude, coord);
    assert Pow10(3) == 1000;
    ParseCoordinate(Longitude, coord, direction, p)
  }

  /**
   * `Coordinate::default()` stands for "no coordinate": its direction `X` is
   * no hemisphere letter, so no text parses to it.
   */
  lemma DefaultIsNeverParsed(axis: Axis, text: seq<u8>, direction: char, p: Parsers)
    requires Sliceable(axis, text)
    ensures ParseCoordinate(axis, text, direction, p) != Ok(Default)
    ensures !IsDirection(Latitude, Default.direction) && !IsDirection(Longitude, Default.direction)
  {
  }

  // ---------------------------------------------------------------------
  // Writing a coordinate and reading it back

  /** The text of a coordinate field: the degrees padded to their width, then the minutes as written. */
  function CoordinateText(axis: Axis, degrees: nat, minutes: seq<u8>): seq<u8>
  {
    PaddedDigits(degrees, DegreeWidth(axis)) + minutes
  }

  /**
   * Degrees that fit the width, minutes text of at least two bytes that the
   * float parser reads as `m`, and a direction of the axis: the text reads
   * back as that coordinate.
   */
  lemma CoordinateRoundTrip(axis: Axis, degrees: u16, minutes: seq<u8>, m: F32, direction: char, p: Parsers)
    requires degrees < Pow10(DegreeWidth(axis)) && Utf8Len(minutes) >= 2
    requires p.float(minutes) == Some(m) && IsDirection(axis, direction)
    ensures Sliceable(axis, CoordinateText(axis, degrees, minutes))
    ensures ParseCoordinate(axis, CoordinateText(axis, degrees, minutes), direction, p) == Ok(Coordinate(degrees, m, direction))
  {
    var w := DegreeWidth(axis);
    var ds := PaddedDigits(degrees, w);
    var text := ds + minutes;
    AsciiPrefixBoundary(ds, minutes);
    Utf8LenAppend(ds, minutes);
    AsciiLength(ds);
    assert text[..w] == ds && text[w..] == minutes;
    PaddedDigitsValue(degrees, w);
    assert DigitPart(ds) == ds;
  }

  /** The direction is checked last: with it wrong, the error is still the first numeric part that fails. */
  lemma DirectionCheckedLast(axis: Axis, text: seq<u8>, direction: char, p: Parsers)
    requires Sliceable(axis, text) && !IsDirection(axis, direction)
    ensures var r := ParseCoordinate(axis, text, direction, p);
      && r.Err?
      && (r.error.InvalidDirection? <==>
            Utf8Len(text) >= DegreeWidth(axis) + 2
            && ParseU16(text[..DegreeChars(axis, text)]).Some?
            && p.float(text[DegreeChars(axis, text)..]).Some?)
  {
  }
}
