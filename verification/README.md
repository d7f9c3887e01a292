# NMEA 0183 sentence decoder, modelled in Dafny

This project models the core of a small Rust decoder for NMEA 0183. NMEA 0183
is the ASCII sentence format that GPS receivers and other marine instruments
stream over a serial line. The model covers five parts.

- **Sentence scanner** (`NMEASentenceReader::next`): a four-state machine
  (none, started, terminated, completed). It looks for `$` or `!` in one
  buffered read and copies the candidate sentence into a fixed 82-byte buffer
  filled with spaces. It hands the buffer out once a CR LF closes the
  candidate, and drops candidates that grow too long or whose CR is not
  followed by LF.
- **Checksum** (`calculate_checksum`, `parse_checksum`, `valid`): the XOR of
  the bytes after the leading `$`/`!`/`,` run up to the first `*`. It is
  compared with the hexadecimal number written after the `*`.
- **Decoder** (`decode` and the three `decode_*_address` helpers): sorts a
  frame into one of four sentence kinds by its leading bytes and decodes the
  fixed-width address. It cuts the payload from a fixed offset up to
  `length - 3`.
- **Field splitter** (`parse_content_fields`): splits the payload at every `,`
  and keeps empty pieces.
- **Two formatters**:
  - GGA (fix data) and its quality table;
  - GSA (DOP and active satellites) and its two mode tables, the satellite-id
    pipeline and the positional DOP fields;
  - the latitude and longitude constructors of `Coordinate` that GGA uses.

How each part is written in Dafny:

- The scanner is an imperative loop over a local array (`Reader.Next`). It is
  proved equal to a state-machine function (`Reader.Scan`), and the
  properties of the scanner are proved about that function.
- `calculate_checksum` is the same kind of loop (`Checksum.CalculateChecksum`).
- Everything else in the core is pure: datatypes, functions and lemmas.

Two parsers come from outside the byte-level logic: `f32::from_str` and
chrono's `NaiveTime::parse_from_str`. They are parameters, collected in
`Oracles.Parsers`, and each statement about the formatters holds for any
parsers given there. Integer parsing follows Rust's standard library and is
modelled exactly (`StdParse.ParseUnsigned`):

- an optional leading `+`, then at least one digit;
- no other character;
- the value must fit the type.

`str::trim` is modelled exactly as well (`StdParse.Trim`).

## Where the code departs from NMEA 0183

The model follows the code in both cases.

- **The manufacturer code.** In NMEA 0183 a proprietary address is `P`
  followed by a three-character manufacturer code, so `$PGRME` belongs to
  the manufacturer `GRM`.
  - `decode_proprietary_address` reads bytes 1 to 3, the `P` included, so it
    gives `PGR` for `$PGRME` (`src/main.rs:265-270`).
  - The payload still starts at offset 4, so it begins with the code's last
    character.
  - Lemma: `Decoder.ProprietaryCodeIncludesP`, which shows `$PABC,` giving
    the code `PAB` and a payload that starts with `C,`.
- **Where the payload ends.** In NMEA 0183 the `*hh` checksum field is not
  part of the payload. `decode` ends the payload at `length - 3`.
  - When the length leaves out CR LF, as in the unit test at
    `src/main.rs:376-386`, this drops exactly `*hh`
    (`Decoder.UnterminatedPayloadIsExact`).
  - The scanner's lengths count CR LF. So when a scanned frame carries `*hh`
    right before CR LF, its payload ends with `*` and the first checksum
    digit (`Decoder.ScannedPayloadKeepsStar`, stated for the correctly
    encoded sentences the scanner accepts).
  - `decode` treats only frames of five bytes or fewer as invalid. The
    scanner also returns frames of 6 to 9 bytes. `decode` panics on those
    whose payload offset lies past `length - 3`:
    - offset 7: `!` frames and `$` frames that are neither proprietary nor
      query, 6 to 9 bytes long (`$GPGG` CR LF is one:
      `Decoder.ShortScannedFrameCannotBeDecoded`);
    - offset 6: a query frame of 8 bytes (`Q` at byte 5);
    - offset 4: a proprietary frame of 6 bytes.
  - Longer `$P` and query frames slice in order, and every frame of ten
    bytes or more does (`Decoder.LongScannedFrameIsDecodable`). The panic is
    listed under Findings.

## Model

| member | source | states |
|---|---|---|
| Reader.Blank | src/main.rs:95 | the buffer starts as 82 spaces |
| Reader.Step | src/main.rs:101-139 | one byte of the loop keeps every buffer write in bounds, grows the length by at most one, completes only on LF after CR, and falls back to idle on any other byte after CR |
| Reader.ScanFrom | src/main.rs:100-149 | a returned frame has a length of 3 to 82 bytes |
| Reader.Scan | src/main.rs:91-150 | an empty read gives no sentence; a returned sentence has a length of 3 to 82 bytes |
| Reader.Next | src/main.rs:91-150 | the loop over the read returns exactly what the state machine `Scan` returns |
| Reader.IdleWithoutStartFindsNothing | src/main.rs:102-108 | an idle scanner that sees no `$` or `!` returns nothing |
| Reader.NoStartByteNoFrame | src/main.rs:96-149 | an empty read, or a read with no start byte, yields no sentence |
| Reader.StepKeepsShape | src/main.rs:101-139 | each step keeps the bytes in use shaped as a candidate of its status: start byte first, no CR before the terminator |
| Reader.ScanFromYieldsFrames | src/main.rs:100-149 | every frame the loop returns starts with `$` or `!`, ends with CR LF, holds no other CR and fits the buffer |
| Reader.ScannedFrameIsFrame | src/main.rs:91-150 | the same, for every read |
| Reader.ScanFromIsContiguous | src/main.rs:100-139 | the bytes in use of a returned frame are a contiguous stretch of what was read |
| Reader.ScannedFrameIsInRead | src/main.rs:91-150 | the same, for every read |
| Reader.AgreeingStatesScanAlike | src/main.rs:100-139 | stale bytes past `length` never change which frame is found or its bytes in use |
| Reader.OverlongCandidateResets | src/main.rs:109-120 | a candidate that reaches 81 bytes without CR is dropped and scanning restarts idle |
| Reader.OversizedCandidateIsDropped | src/main.rs:109-120 | a start byte and 80 bytes without CR: the result is that of the read after them |
| Reader.CarriageReturnWithoutLineFeed | src/main.rs:121-130 | after CR, a byte other than LF drops the candidate and is consumed, even a start byte |
| Reader.SwallowedStartByteExample | src/main.rs:121-130 | `$` CR `$A` CR LF yields no sentence: the second `$` is swallowed |
| Reader.ScanFromCons | src/main.rs:100-139 | the loop handles one byte, then the rest |
| Reader.StartedCopiesBytes | src/main.rs:109-120 | a started candidate copies bytes without CR into the buffer at `length` |
| Reader.TerminatorCompletes | src/main.rs:112-137 | CR LF after a started candidate returns it at once, CR LF counted in `length` |
| Reader.TerminatorBreaks | src/main.rs:121-130 | CR then another byte drops the candidate and leaves both bytes in the buffer |
| Reader.IdleStartsCandidate | src/main.rs:102-120 | a start byte and bytes without CR leave a started candidate that holds them |
| Reader.IdleFindsFrame | src/main.rs:100-137 | a start byte, bytes without CR, then CR LF come back as exactly that frame; the buffer past it keeps its old bytes |
| Reader.ReadStartingWithFrame | src/main.rs:91-137 | a read that begins with a well-formed frame returns it over a buffer of spaces |
| Reader.IdleDropsBrokenCandidate | src/main.rs:100-130 | a candidate whose CR is not followed by LF is dropped; its bytes stay in the buffer |
| Reader.BrokenCandidateIsDropped | src/main.rs:100-130 | after such a candidate, the result is that of the read after it |
| Reader.IdleSkipsNoise | src/main.rs:100-108 | bytes other than `$` and `!` read while idle are skipped: the result is that of the read after them |
| Reader.NoiseThenFrame | src/main.rs:91-137 | noise without a start byte, then a well-formed frame: that frame comes back, over a buffer of spaces |
| ByteXor.Xor8 | src/main.rs:164 | `^` on bytes stays a byte |
| ByteXor.XorCancel | src/main.rs:164 | XOR with the same byte twice gives back the accumulator |
| ByteXor.XorInjective | src/main.rs:164 | two different bytes XORed into the same accumulator give different results |
| Checksum.SkipStart | src/main.rs:156-159 | `skip_while` drops exactly the leading run of `$`, `!` and `,` |
| Checksum.UpToStar | src/main.rs:160-163 | the bytes folded are a prefix with no `*`, ending at the first `*` or the end |
| Checksum.AfterStar | src/main.rs:170-174 | the checksum text is what follows the first `*`, or nothing without a `*` |
| Checksum.SkipStartIndex | src/main.rs:156-159 | the loop stops at the first byte that is not skipped |
| Checksum.XorUpToStar | src/main.rs:160-166 | the `while let` loop returns the XOR of the bytes before the first `*` |
| Checksum.CalculateChecksum | src/main.rs:154-167 | `calculate_checksum` is the XOR of the covered span of the whole buffer |
| Checksum.IsValid | src/main.rs:180-182 | `valid` holds exactly when the computed and transmitted checksums agree |
| Checksum.ChecksumField | src/main.rs:169-178 | 0 when there is no `*`; when the trimmed text after the first `*` is two hex digits, the byte they spell, the first digit the high nibble |
| Checksum.XorOfUpdate | src/main.rs:160-165 | replacing one byte changes the XOR by the bits that changed |
| Checksum.SkipStartAt | src/main.rs:156-159 | the skipped prefix ends at the first byte that is not `$`, `!` or `,` |
| Checksum.SkipStartOfUpdate | src/main.rs:156-159 | changing a covered byte leaves the skipped prefix alone |
| Checksum.UpToStarAt | src/main.rs:160-163 | the folded bytes end at the first `*` |
| Checksum.UpToStarOfUpdate | src/main.rs:160-174 | changing a folded byte to a byte that is not `*` moves neither the first `*` nor the text after it |
| Checksum.AfterStarSkipsPrefix | src/main.rs:169-174 | the checksum text is found after the skipped prefix |
| Checksum.ChecksumOfUpdate | src/main.rs:154-167 | a changed covered byte changes the computed checksum by the bits that changed |
| Checksum.AfterStarOfUpdate | src/main.rs:169-178 | a changed covered byte leaves the transmitted checksum text alone |
| Checksum.CorruptedByteIsDetected | src/main.rs:154-182 | one corrupted byte in the covered span changes the computed checksum and not the transmitted one, so a valid sentence turns invalid |
| FrameChecksum.EncodedSpan | src/main.rs:154-174 | for a correctly encoded sentence the checksum covers exactly the body, and the checksum text starts with its two hex digits |
| FrameChecksum.HexFieldTrims | src/main.rs:177 | `trim` leaves just the hex digits when only CR LF and white space follow |
| FrameChecksum.EncodedChecksumMatches | src/main.rs:154-182 | an encoded sentence followed only by white space passes `valid` |
| FrameChecksum.EncodedFrameChecksumMatches | src/main.rs:154-182 | an encoded frame passes the check on the bytes in use, whatever else the buffer holds |
| FrameChecksum.EncodedIsFrame | src/main.rs:109-120 | an encoded sentence has no stray CR and fits the scanner's limit |
| FrameChecksum.ScanOfEncoded | src/main.rs:91-150 | a read that begins with an encoded sentence returns it, CR LF included in the length |
| FrameChecksum.CleanReadIsValid | src/main.rs:91-182 | that sentence, on a read that begins with it, passes `valid` |
| FrameChecksum.StaleReadScans | src/main.rs:100-139 | after a dropped candidate, the next sentence comes back with the candidate's bytes still in the buffer past it |
| FrameChecksum.StaleBufferBytes | src/main.rs:104-130 | the buffer then holds the sentence, `GH` CR `X`, then spaces |
| FrameChecksum.DigitsWithCR | src/main.rs:177 | text with a CR after its first byte is not a hex number |
| FrameChecksum.LeftoverBytesZeroField | src/main.rs:169-178 | any byte other than white space left after CR LF makes the transmitted checksum read as 0 |
| FrameChecksum.LeftoversBreakHexField | src/main.rs:169-178 | the trimmed checksum text then has a CR inside it and does not parse |
| FrameChecksum.StaleBufferChecksums | src/main.rs:154-178 | in that buffer the computed checksum is 0x58 and the transmitted one reads as 0 |
| FrameChecksum.StaleBytesBreakChecksum | src/main.rs:169-178 | an intact sentence read after a dropped candidate fails `valid` but passes the check on the bytes in use |
| Decoder.DecodeApprovedAddress | src/main.rs:243-254 | talker from bytes 1-2, formatter from bytes 3-5, tagged Approved |
| Decoder.DecodeQueryAddress | src/main.rs:256-263 | listener from bytes 1-2, talker from bytes 3-4, tagged Query |
| Decoder.DecodeProprietaryAddress | src/main.rs:265-275 | the manufacturer code is bytes 1-3, the `P` included, tagged Proprietary |
| Decoder.Decode | src/main.rs:184-241 | Invalid exactly for short frames or another first byte, with no address and the whole buffer as content; otherwise an address whose tag matches the kind, read from the bytes after the start byte, and the payload `[offset..length - 3]` |
| Decoder.SentenceTypeByLeadingBytes | src/main.rs:199-223 | the kind is decided by byte 0, then byte 1 (`P`), then byte 5 (`Q`); `P` wins over `Q` |
| Decoder.ApprovedRoundTrip | src/main.rs:199-221 | a parametric or encapsulation sentence gives back its talker, formatter and payload exactly |
| Decoder.QueryRoundTrip | src/main.rs:211-216 | a query sentence gives back listener, talker and payload |
| Decoder.ProprietaryRoundTrip | src/main.rs:205-210 | a proprietary sentence gives back `P` plus two bytes as the code, and the payload from offset 4 |
| Decoder.ProprietaryCodeIncludesP | src/main.rs:265-270 | `$PABC,` gives the code `PAB`, and the payload starts with `C,` |
| Decoder.PayloadOfBody | src/main.rs:199-223 | the payload of any `$` frame is its body from the offset on, then all of its tail but the last three bytes |
| Decoder.TerminatedPayloadKeepsStar | src/main.rs:203-220 | with CR LF counted in the length, the payload ends with `*` and the first checksum digit |
| Decoder.ScannedPayloadKeepsStar | src/main.rs:184-241 | the same, for every encoded sentence the scanner returns |
| Decoder.UnterminatedPayloadIsExact | src/main.rs:376-386 | without CR LF in the length, as the test builds sentences, the payload is exactly the fields |
| Decoder.ShortScannedFrameCannotBeDecoded | src/main.rs:188-220 | the scanner returns a 7-byte frame whose payload slice would be out of order |
| Decoder.LongScannedFrameIsDecodable | src/main.rs:188-220 | every frame of ten bytes or more that the scanner returns keeps the payload slice in order |
| Decoder.DecodeChecked | src/main.rs:184-241 | `decode` with the short-frame guard covering the payload slice: Invalid exactly when the slice would not fit, and equal to `decode` wherever `decode` does not panic |
| Decoder.ShortScannedFrameIsInvalid | src/main.rs:188-220 | the 7-byte frame `$GPGG` CR LF is reported Invalid instead of panicking |
| Decoder.Split | src/main.rs:279-281 | at least one piece, and no piece holds a comma |
| Decoder.SplitCount | src/main.rs:279-281 | one piece more than there are commas |
| Decoder.ParseContentFields | src/main.rs:279-281 | the pieces number the commas plus one, hold no comma, and joined with `,` give back the payload |
| Decoder.JoinSplit | src/main.rs:279-281 | joining the pieces restores the payload |
| Decoder.SplitPrefix | src/main.rs:280 | bytes without a comma are part of the first piece |
| Decoder.SplitAtComma | src/main.rs:280 | bytes without a comma, then a comma: those bytes are a piece of their own |
| Decoder.SplitJoin | src/main.rs:280 | splitting pieces joined with `,` gives back the pieces, empty ones included |
| Decoder.GsaTestText | src/main.rs:376 | the test sentence is 62 bytes long |
| Decoder.GsaTestFieldsShape | src/main.rs:389-392 | the expected pieces are 17, the fourteenth empty, none with a comma |
| Decoder.GsaTestSplits | src/main.rs:389-394 | the expected pieces are what splitting their join gives |
| Decoder.ParseContentTestVector | src/main.rs:374-395 | the test sentence decodes as parametric `GP` `GSA`, and its payload splits into the 17 expected pieces |
| StdParse.ByteChar | src/approved_sentence_formatters/gga.rs:98 | `byte as char` keeps the code point |
| StdParse.Text | src/approved_sentence_formatters/gsa.rs:80 | the text built from bytes has one character per byte |
| StdParse.DigitValue | src/main.rs:177 | a digit of radix 10 or 16 has a value below the radix, and the digits are exactly `0-9` (and `A-F`, `a-f`) |
| StdParse.DigitsValue | src/main.rs:177 | a run of bytes has a value exactly when all of them are digits |
| StdParse.DigitPart | src/main.rs:177 | one leading `+` is dropped, nothing else |
| StdParse.ParseUnsigned | src/main.rs:177 | `from_str_radix` succeeds exactly on an optional `+` and at least one digit whose value fits |
| StdParse.ParseU8 | src/approved_sentence_formatters/gsa.rs:80 | `u8::from_str` is the radix-10 parse bounded by 255 |
| StdParse.ParseU16 | src/approved_sentence_formatters/gga.rs:166-172 | `u16::from_str` is the radix-10 parse bounded by 65535 |
| StdParse.TrimStart | src/main.rs:177 | drops exactly the leading white space |
| StdParse.TrimEnd | src/main.rs:177 | drops exactly the trailing white space |
| StdParse.TrimEndDropsWhitespace | src/main.rs:177 | white space appended makes no difference to `trim_end` |
| StdParse.TrimEndAt | src/main.rs:177 | `trim_end` stops at the last byte that is not white space |
| StdParse.Trim | src/main.rs:177 | `trim_end` of `trim_start`: a stretch of the text with only white space before and after it in the text, and none at its own ends |
| StdParse.TrimStartSkips | src/main.rs:177 | white space in front of a text that does not start with it is exactly what `trim_start` drops |
| StdParse.TrimOfPadded | src/main.rs:177 | a text without white space at its ends, padded with white space on both sides, trims back to itself |
| StdParse.Hex2Parses | src/main.rs:177 | the two hex digits of a byte parse back to that byte |
| StdParse.TwoHexDigitsParse | src/main.rs:177 | two hex digits parse with radix 16 as the byte they spell |
| StdParse.DigitsBelow | src/primitives/coordinates.rs:76 | `n` digits are worth less than `10^n` |
| StdParse.PaddedDigitsValue | src/primitives/coordinates.rs:76 | zero-padded digits are worth their number |
| StdParse.PaddedDigitsParse | src/approved_sentence_formatters/gsa.rs:80 | zero-padded digits parse back to their number |
| Oracles.FloatOrZero | src/approved_sentence_formatters/gsa.rs:49-55 | the parsed float, or 0.0 when the parse fails |
| Oracles.ParseTime | src/approved_sentence_formatters/gga.rs:75-91 | the time with fractional seconds, else with whole seconds, else midnight |
| Coordinates.Utf8Len | src/primitives/coordinates.rs:73 | `len()` of the text counts at least one byte per character |
| Coordinates.Utf8LenAppend | src/primitives/coordinates.rs:73 | the length of joined texts is the sum of their lengths |
| Coordinates.AsciiLength | src/primitives/coordinates.rs:73 | an ASCII text's length is its number of bytes |
| Coordinates.CharsInBytes | src/primitives/coordinates.rs:76 | a character boundary at byte `n` is the end of a prefix that is `n` bytes long |
| Coordinates.NoCharBoundary | src/primitives/coordinates.rs:76 | without such a boundary, no prefix is `n` bytes long and slicing panics |
| Coordinates.AsciiPrefixBoundary | src/primitives/coordinates.rs:76-77 | an ASCII prefix ends on a character boundary |
| Coordinates.DegreeChars | src/primitives/coordinates.rs:76-77 | the degree slice is exactly the degree width long |
| Coordinates.ParseCoordinate | src/primitives/coordinates.rs:72-102 | each error exactly when its check is the first that fails, in the order length, degrees, minutes, direction; otherwise the parsed coordinate with its direction |
| Coordinates.DegreesBelow | src/primitives/coordinates.rs:76 | parsed degrees are below `10^width` |
| Coordinates.FromLatitudeString | src/primitives/coordinates.rs:72-86 | InvalidLength exactly when `len() < 4`; a result has direction N or S and degrees below 100 |
| Coordinates.FromLongitudeString | src/primitives/coordinates.rs:88-102 | InvalidLength exactly when `len() < 5`; a result has direction E or W and degrees below 1000 |
| Coordinates.CoordinateRoundTrip | src/primitives/coordinates.rs:72-102 | padded degrees and readable minutes with a valid direction parse back to that coordinate |
| Coordinates.DirectionCheckedLast | src/primitives/coordinates.rs:72-102 | with a wrong direction, InvalidDirection is reported only when both numbers parse |
| Coordinates.DefaultIsNeverParsed | src/primitives/coordinates.rs:45-49 | `Coordinate::default()` has direction `X`, no hemisphere letter, so no text parses to it |
| Gga.QualityFromChar | src/approved_sentence_formatters/gga.rs:31-44 | never the unset value; Invalid exactly for bytes other than `1` to `8` |
| Gga.QualityRoundTrip | src/approved_sentence_formatters/gga.rs:31-44 | every quality's digit reads back as that quality (`4` is RTKFixed, `5` RTKFloat) |
| Gga.QualityCodeOfChar | src/approved_sentence_formatters/gga.rs:31-44 | a byte read as a valid quality is that quality's digit |
| Gga.DirectionOf | src/approved_sentence_formatters/gga.rs:98 | the first byte of the field, or `X` when it is empty |
| Gga.NoDirectionFails | src/approved_sentence_formatters/gga.rs:93-115 | a coordinate with direction `X` is always an error |
| Gga.FromField | src/approved_sentence_formatters/gga.rs:72-193 | quality Invalid exactly when a required parse fails or field 5 is not `1`-`8`, otherwise read from field 5; each field parsed or defaulted; an empty direction field gives the default coordinate and Invalid |
| Gga.OptionalFieldsKeepQuality | src/approved_sentence_formatters/gga.rs:150-179 | fields 10, 12 and 13 never decide the quality |
| Gsa.ConfigFromField | src/approved_sentence_formatters/gsa.rs:10-16 | Manual exactly for `M`, Automatic exactly for `A` |
| Gsa.ConfigRoundTrip | src/approved_sentence_formatters/gsa.rs:10-16 | each configuration's letter reads back as it |
| Gsa.ModeFromField | src/approved_sentence_formatters/gsa.rs:27-34 | each mode exactly for its digit `1`, `2` or `3` |
| Gsa.ModeRoundTrip | src/approved_sentence_formatters/gsa.rs:27-34 | each mode's digit reads back as it |
| Gsa.TakeUntilDot | src/approved_sentence_formatters/gsa.rs:77 | the longest prefix of fields without a `.` |
| Gsa.DropEmptyKeeps | src/approved_sentence_formatters/gsa.rs:78 | the filter keeps exactly the non-empty fields and drops one per empty field |
| Gsa.DropEmptyAppend | src/approved_sentence_formatters/gsa.rs:78 | the filter keeps the order |
| Gsa.IdValue | src/approved_sentence_formatters/gsa.rs:79-82 | the field's `u8` value, or 0 when it does not parse |
| Gsa.TwoDigitId | src/approved_sentence_formatters/gsa.rs:79-82 | `01` as well as `71` reads back as its number |
| Gsa.IdValues | src/approved_sentence_formatters/gsa.rs:79-82 | one id per field, in order |
| Gsa.IdsOf | src/approved_sentence_formatters/gsa.rs:77-81 | at most one id per field |
| Gsa.IdsCount | src/approved_sentence_formatters/gsa.rs:74-83 | one id per non-empty field before the first field with a `.` |
| Gsa.IdsOfCons | src/approved_sentence_formatters/gsa.rs:74-83 | a non-empty field without a `.` puts its id first; an empty one adds nothing |
| Gsa.IdsOfStopAtDot | src/approved_sentence_formatters/gsa.rs:77 | nothing at or after a field with a `.` is an id |
| Gsa.SatelliteIds | src/approved_sentence_formatters/gsa.rs:74-83 | `skip(2)`: no ids from fewer than three fields, and at most one id per field after the first two |
| Gsa.FromField | src/approved_sentence_formatters/gsa.rs:48-88 | config and mode from fields 0 and 1, ids from field 2 on, PDOP, HDOP and VDOP from the last three fields |
| Gsa.SatelliteIdsIgnoreTail | src/approved_sentence_formatters/gsa.rs:74-83 | fields after the first `.` do not change the ids |
| Gsa.IdsOfDigitPairs | src/approved_sentence_formatters/gsa.rs:74-83 | two-digit fields in front contribute their ids, in order |
| Gsa.GsaTestIds | src/approved_sentence_formatters/gsa.rs:98-108 | the test fields give the ids 32, 21, 22, 1, 3, 31, 4, 17, 8, 71, 72 |
| Gsa.ParseGsaTestVector | src/approved_sentence_formatters/gsa.rs:96-120 | `test_parse_gsa`: Automatic, ThreeDimensional, those ids, and the DOPs parsed from `1.50`, `0.90` and `1.20` |

## Left out

- The byte source: `read_until` is replaced by the bytes of one read, given to `Reader.Next`. An I/O error and an empty read both give `None`.
- `main`: the logging setup, the counting `HashMap`, the dispatch loop and its `todo!()` for query sentences. These are program glue.
- `select_sentence_formatter` and `SentenceContent` are not part of this model, and neither is `dpt.rs`.
- The `Display`, `Error` and `From` impls of `CoordinateError`, and `Coordinate::to_decimal_degrees` and `to_string`: these are formatting and floating-point arithmetic.
- `f32` values are opaque 32-bit patterns. `f32::from_str` and `NaiveTime::parse_from_str` are parameters (`Oracles.Parsers`), not models of those parsers.
- The coordinate errors `ParseIntError` and `ParseFloatError` carry no error kind (empty input, invalid digit, overflow).
- Coordinates.FromLatitudeString: requires that slicing at the degree width does not cut a character (`Sliceable`). Where it would, the source panics, and the model does not cover that path.
- Coordinates.FromLongitudeString: the same `Sliceable` requirement, for the same reason.
- Gga.FromField: requires 14 fields, sliceable coordinate texts, and a non-empty field 5 when the required parses succeed. The source panics otherwise.
- Gsa.FromField: requires three fields. The source panics on fewer.
- Decoder.Decode: requires `Decodable`, meaning the payload slice is in order. `Decoder.ShortScannedFrameCannotBeDecoded` shows a frame the scanner returns that breaks this; `Decoder.DecodeChecked` is the total version.
- Checksum.CorruptedByteIsDetected: the new byte must not be `*`, and at the first covered position it must not be `$`, `!` or `,`. Those bytes move the covered span, so detection is not guaranteed for them.
- Decoder.ScannedPayloadKeepsStar: stated for bodies that encode to a frame the scanner accepts (`FrameChecksum.Sendable`).

## Findings

| source | as written | input that shows it | evidently intended | confidence | as-written member | corrected member |
|---|---|---|---|---|---|---|
| src/main.rs:169-178 | `calculate_checksum` and `parse_checksum` read all 82 bytes of the buffer, and the scanner leaves the bytes of a dropped candidate in the buffer past `length`. Those bytes follow the checksum digits into the text `parse_checksum` trims and parses, so the parse fails and the transmitted checksum reads as 0 | the read `$ABCDEFGH` CR `X$X*58` CR LF: the sentence `$X*58` comes back intact with checksum 0x58, yet `valid` is false | compute both checksums over `characters[..length]` only, which accepts every correctly encoded frame whatever the buffer holds | not executed | FrameChecksum.StaleBytesBreakChecksum | FrameChecksum.EncodedFrameChecksumMatches |
| src/main.rs:188-220 | `decode` reports only frames of five bytes or fewer as invalid, then slices the payload `[offset..length - 3]`. The scanner returns frames of 6 to 9 bytes, for which that slice can start after it ends | the read `$GPGG` CR LF: the scanner returns a 7-byte frame, and `decode` slices `[7..4]` and panics | report a frame too short for the payload slice of its kind as INVALID, as frames of five bytes or fewer are | not executed | Decoder.ShortScannedFrameCannotBeDecoded | Decoder.DecodeChecked |
