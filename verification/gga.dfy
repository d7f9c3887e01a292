/**
 * GGA, Global Positioning System Fix Data: `GPSQuality::from_char` and
 * `GGA::from_field`, which reads the fields of a decoded GGA sentence and
 * downgrades the fix quality to `Invalid` as soon as a required field fails
 * to parse.
 */
module Gga {
  import opened Wrappers
  import opened StdParse
  import opened Oracles
  import opened Coordinates

  /**
   * The GPS quality indicator. `Unset` is the source's `GPSQuality::None`,
   * the value `from_field` starts from before it knows the quality.
   */
  datatype GpsQuality =
    | Invalid
    | Sps
    | Differential
    | Pps
    | RtkFloat
    | RtkFixed
    | Estimated
    | Manual
    | Simulator
    | Unset

  /** `GPSQuality::from_char`: the digits `1` to `8` name a quality, anything else is `Invalid`. */
  function QualityFromChar(data: u8): (q: GpsQuality)
    ensures q != Unset
    ensures q == Invalid <==> !(0x31 <= data <= 0x38)
  {
    if data == 0x30 then Invalid
    else if data == 0x31 then Sps
    else if data == 0x32 then Differential
    else if data == 0x33 then Pps
    else if data == 0x34 then RtkFixed
    else if data == 0x35 then RtkFloat
    else if data == 0x36 then Estimated
    else if data == 0x37 then Manual
    else if data == 0x38 then Simulator
    else Invalid
  }

  /** The digit a receiver writes for a quality. */
  function QualityCode(q: GpsQuality): (b: u8)
    requires q != Unset
    ensures 0x30 <= b <= 0x38
  {
    match q
    case Invalid => 0x30
    case Sps => 0x31
    case Differential => 0x32
    case Pps => 0x33
    case RtkFixed => 0x34
    case RtkFloat => 0x35
    case Estimated => 0x36
    case Manual => 0x37
    case Simulator => 0x38
  }

  /** Every quality's digit reads back as that quality. */
  lemma QualityRoundTrip(q: GpsQuality)
    requires q != Unset
    ensures QualityFromChar(QualityCode(q)) == q
  {
  }

  /** A byte read as a quality other than `Invalid` is that quality's digit. */
  lemma QualityCodeOfChar(data: u8)
    ensures QualityFromChar(data) != Invalid ==> QualityCode(QualityFromChar(data)) == data
  {
  }

  /** The fields of a GGA sentence, as `from_field` returns them. */
  datatype Gga = Gga(
    time: NaiveTime,
    latitude: Coordinate,
    longitude: Coordinate,
    gpsQuality: GpsQuality,
    satellitesInUse: u8,
    hdop: F32,
    altitude: F32,
    ageOfDifferentialGps: F32,
    differentialStationId: u16,
    geoidalSeparation: F32)

  /** `*field.get(0).unwrap_or(&b'X') as char` */
  function DirectionOf(field: seq<u8>): (c: char)
    ensures field == [] ==> c == 'X'
    ensures field != [] ==> c == ByteChar(field[0])
  {
    if field == [] then 'X' else ByteChar(field[0])
  }

  /**
   * What `from_field` needs of its fields: fourteen of them, and coordinate
   * texts it can slice.
   */
  predicate Readable(fields: seq<seq<u8>>)
  {
    |fields| >= 14 && Sliceable(Latitude, fields[1]) && Sliceable(Longitude, fields[3])
  }

  function LatitudeOf(fields: seq<seq<u8>>, p: Parsers): Result<Coordinate, CoordinateError>
    requires Readable(fields)
  {
    FromLatitudeString(fields[1], DirectionOf(fields[2]), p)
  }

  function LongitudeOf(fields: seq<seq<u8>>, p: Parsers): Result<Coordinate, CoordinateError>
    requires Readable(fields)
  {
    FromLongitudeString(fields[3], DirectionOf(fields[4]), p)
  }

  /** The five parses whose failure marks the fix `Invalid`: latitude, longitude, satellites, HDOP and altitude. */
  predicate RequiredFieldsParse(fields: seq<seq<u8>>, p: Parsers)
    requires Readable(fields)
  {
    && LatitudeOf(fields, p).Ok?
    && LongitudeOf(fields, p).Ok?
    && ParseU8(fields[6]).Some?
    && p.float(fields[7]).Some?
    && p.float(fields[8]).Some?
  }

  /** A coordinate that parsed, or `Coordinate::default()`. */
  function CoordinateOrDefault(r: Result<Coordinate, CoordinateError>): Coordinate
  {
    if r.Ok? then r.value else Default
  }

  /** Whatever direction it is given, a coordinate with direction `X` is an error. */
  lemma NoDirectionFails(coord: seq<u8>, p: Parsers)
    ensures Sliceable(Latitude, coord) ==> FromLatitudeString(coord, 'X', p).Err?
    ensures Sliceable(Longitude, coord) ==> FromLongitudeString(coord, 'X', p).Err?
  {
  }

  /**
   * `GGA::from_field`. The quality starts unset; each required field that
   * fails to parse sets it to `Invalid` and takes its default; only if it is
   * still unset at the end is it read from the first byte of field 5.
   */
  method FromField(fields: seq<seq<u8>>, p: Parsers) returns (gga: Gga)
    requires Readable(fields)
    requires RequiredFieldsParse(fields, p) ==> fields[5] != []
    ensures gga.gpsQuality != Unset
    ensures !RequiredFieldsParse(fields, p) ==> gga.gpsQuality == Invalid
    ensures RequiredFieldsParse(fields, p) ==> gga.gpsQuality == QualityFromChar(fields[5][0])
    ensures gga.gpsQuality == Invalid <==> !RequiredFieldsParse(fields, p) || !(0x31 <= fields[5][0] <= 0x38)
    ensures gga.time == ParseTime(p, fields[0])
    ensures gga.latitude == CoordinateOrDefault(LatitudeOf(fields, p))
    ensures gga.longitude == CoordinateOrDefault(LongitudeOf(fields, p))
    ensures fields[2] == [] ==> gga.latitude == Default && gga.gpsQuality == Invalid
    ensures fields[4] == [] ==> gga.longitude == Default && gga.gpsQuality == Invalid
    ensures ParseU8(fields[6]).Some? ==> gga.satellitesInUse == ParseU8(fields[6]).value
    ensures ParseU8(fields[6]).None? ==> gga.satellitesInUse == 0 && gga.gpsQuality == Invalid
    ensures gga.hdop == FloatOrZero(p, fields[7]) && gga.altitude == FloatOrZero(p, fields[8])
    ensures gga.geoidalSeparation == FloatOrZero(p, fields[10])
    ensures gga.ageOfDifferentialGps == FloatOrZero(p, fields[12])
    ensures gga.differentialStationId == (if ParseU16(fields[13]).Some? then ParseU16(fields[13]).value else 0)
  {
    var gpsQuality := Unset;

    var time := ParseTime(p, fields[0]);

    var latitude := Default;
    var lat := FromLatitudeString(fields[1], DirectionOf(fields[2]), p);
    if lat.Ok? {
      latitude := lat.value;
    } else {
      gpsQuality := Invalid;
    }

    var longitude := Default;
    var lon := FromLongitudeString(fields[3], DirectionOf(fields[4]), p);
    if lon.Ok? {
      longitude := lon.value;
    } else {
      gpsQuality := Invalid;
    }

    var satellitesInUse := 0;
    var sats := ParseU8(fields[6]);
    if sats.Some? {
      satellitesInUse := sats.value;
    } else {
      gpsQuality := Invalid;
    }

    var hdop := Zero;
    var h := p.float(fields[7]);
    if h.Some? {
      hdop := h.value;
    } else {
      gpsQuality := Invalid;
    }

    var altitude := Zero;
    var alt := p.float(fields[8]);
    if alt.Some? {
      altitude := alt.value;
    } else {
      gpsQuality := Invalid;
    }

    var geoidalSeparation := FloatOrZero(p, fields[10]);
    var ageOfDifferentialGps := FloatOrZero(p, fields[12]);
    var differentialStationId := 0;
    var station := ParseU16(fields[13]);
    if station.Some? {
      differentialStationId := station.value;
    }

    assert gpsQuality == (if RequiredFieldsParse(fields, p) then Unset else Invalid);
    if gpsQuality == Unset {
      gpsQuality := QualityFromChar(fields[5][0]);
    }

    assert fields[2] == [] ==> lat.Err? by {
      NoDirectionFails(fields[1], p);
    }
    assert fields[4] == [] ==> lon.Err? by {
      NoDirectionFails(fields[3], p);
    }
    gga := Gga(time, latitude, longitude, gpsQuality, satellitesInUse, hdop, altitude,
               ageOfDifferentialGps, differentialStationId, geoidalSeparation);
  }

  /**
   * Fields 10, 12 and 13 (geoidal separation, DGPS age, station id) never
   * decide the quality: whatever they hold, the required parses and field 5
   * are those of the original fields.
   */
  lemma OptionalFieldsKeepQuality(fields: seq<seq<u8>>, p: Parsers, separation: seq<u8>, age: seq<u8>, station: seq<u8>)
    requires Readable(fields)
    ensures var other := fields[10 := separation][12 := age][13 := station];
      && Readable(other)
      && RequiredFieldsParse(other, p) == RequiredFieldsParse(fields, p)
      && other[5] == fields[5]
  {
  }
}
