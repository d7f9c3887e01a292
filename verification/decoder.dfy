/**
 * `NMEASentence::decode` and the three `decode_*_address` helpers: a frame
 * is classified by its first byte (and, for `$`, by bytes 1 and 5) into one
 * of four address shapes, and the payload is cut out at a fixed offset per
 * shape, ending `length - 3` bytes in. `NMEADateContent::parse_content_fields`
 * then splits the payload at every `,`.
 *
 * The end offset `length - 3` drops three bytes, `*hh` on a sentence whose
 * length leaves out CR LF. The scanner's lengths count CR LF, so the payload
 * of a scanned frame keeps the `*` and the first checksum digit
 * (`ScannedPayloadKeepsStar`).
 */
module Decoder {
  import opened Wrappers
  import opened StdParse
  import opened Reader
  import opened Checksum
  import opened FrameChecksum

  const LetterP: u8 := 0x50
  const LetterQ: u8 := 0x51

  /** `NMEAAddressFieldType` */
  datatype AddressFieldType = InvalidAddress | ApprovedAddress | QueryAddress | ProprietaryAddress

  /** `Address`: the talker and formatter, the listener and talker, or the manufacturer code. */
  datatype Address =
    | Approved(talker: seq<char>, formatter: seq<char>)
    | Query(listener: seq<char>, talker: seq<char>)
    | Proprietary(manufacturer: seq<char>)

  /** `NMEAAddressField` */
  datatype AddressField = AddressField(addressType: AddressFieldType, address: Address)

  /** `SentenceType` */
  datatype SentenceType = InvalidSentence | Parametric | Encapsulation | QuerySentence | ProprietarySentence

  /** `NMEADateContent`: the result of `decode`. */
  datatype DecodedContent = DecodedContent(sentenceType: SentenceType, address: Option<AddressField>, content: seq<u8>)

  /** The tag of an address field names the variant it holds. */
  predicate Tagged(a: AddressField)
  {
    match a.address
    case Approved(_, _) => a.addressType == ApprovedAddress
    case Query(_, _) => a.addressType == QueryAddress
    case Proprietary(_) => a.addressType == ProprietaryAddress
  }

  /** The address shape each sentence type carries. */
  function ShapeOf(t: SentenceType): AddressFieldType
  {
    match t
    case InvalidSentence => InvalidAddress
    case Parametric => ApprovedAddress
    case Encapsulation => ApprovedAddress
    case QuerySentence => QueryAddress
    case ProprietarySentence => ProprietaryAddress
  }

  /** How many bytes after the start byte each address shape takes. */
  function AddressWidth(t: AddressFieldType): (n: nat)
    ensures n <= 5
  {
    match t
    case InvalidAddress => 0
    case ApprovedAddress => 5
    case QueryAddress => 4
    case ProprietaryAddress => 3
  }

  /** The characters of an address, in the order they stand in the sentence. */
  function AddressText(a: Address): seq<char>
  {
    match a
    case Approved(talker, formatter) => talker + formatter
    case Query(listener, talker) => listener + talker
    case Proprietary(manufacturer) => manufacturer
  }

  /** `decode_approved_address`: talker from bytes 1-2, formatter from bytes 3-5. */
  function DecodeApprovedAddress(c: Buffer): (a: AddressField)
    ensures Tagged(a) && a.address.Approved?
    ensures |a.address.talker| == 2 && |a.address.formatter| == 3
    ensures AddressText(a.address) == Text(c[1..6])
  {
    AddressField(ApprovedAddress, Approved(Text(c[1..3]), Text(c[3..6])))
  }

  /** `decode_query_address`: listener from bytes 1-2, talker from bytes 3-4. */
  function DecodeQueryAddress(c: Buffer): (a: AddressField)
    ensures Tagged(a) && a.address.Query?
    ensures |a.address.listener| == 2 && |a.address.talker| == 2
    ensures AddressText(a.address) == Text(c[1..5])
  {
    AddressField(QueryAddress, Query(Text(c[1..3]), Text(c[3..5])))
  }

  /** `decode_proprietary_address`: the manufacturer code is bytes 1-3, the `P` included. */
  function DecodeProprietaryAddress(c: Buffer): (a: AddressField)
    ensures Tagged(a) && a.address.Proprietary?
    ensures |a.address.manufacturer| == 3 && a.address.manufacturer[0] == ByteChar(c[1])
    ensures AddressText(a.address) == Text(c[1..4])
  {
    AddressField(ProprietaryAddress, Proprietary(Text(c[1..4])))
  }

  /** Where the payload starts in a frame that opens with `$` or `!`. */
  function PayloadStart(c: Buffer): nat
  {
    if c[0] == Bang then 7
    else if c[1] == LetterP then 4
    else if c[5] == LetterQ then 6
    else 7
  }

  /**
   * The frames `decode` handles without panicking: short ones and ones with
   * another first byte are reported invalid, and for the others the slice
   * `[offset..length - 3]` must lie inside the buffer.
   */
  predicate Decodable(s: Sentence)
  {
    s.length <= 5 || !IsStart(s.characters[0])
    || PayloadStart(s.characters) <= s.length - 3 <= MaxLength
  }

  /** `NMEASentence::decode` */
  function Decode(s: Sentence): (d: DecodedContent)
    requires Decodable(s)
    ensures d.sentenceType == InvalidSentence <==> s.length <= 5 || !IsStart(s.characters[0])
    ensures d.sentenceType == InvalidSentence ==> d.address == None && d.content == s.characters
    ensures d.sentenceType != InvalidSentence ==>
      && d.address.Some? && Tagged(d.address.value)
      && d.address.value.addressType == ShapeOf(d.sentenceType)
      && AddressText(d.address.value.address) == Text(s.characters[1..1 + AddressWidth(ShapeOf(d.sentenceType))])
      && d.content == s.characters[PayloadStart(s.characters)..s.length - 3]
  {
    var c := s.characters;
    if s.length <= 5 then DecodedContent(InvalidSentence, None, c)
    else if c[0] == Bang then
      DecodedContent(Encapsulation, Some(DecodeApprovedAddress(c)), c[7..s.length - 3])
    else if c[0] == Dollar then
      if c[1] == LetterP then
        DecodedContent(ProprietarySentence, Some(DecodeProprietaryAddress(c)), c[4..s.length - 3])
      else if c[5] == LetterQ then
        DecodedContent(QuerySentence, Some(DecodeQueryAddress(c)), c[6..s.length - 3])
      else
        DecodedContent(Parametric, Some(DecodeApprovedAddress(c)), c[7..s.length - 3])
    else DecodedContent(InvalidSentence, None, c)
  }

  /**
   * The sentence type is fixed by the first byte and, after a `$`, by bytes 1
   * and 5; a `P` at byte 1 wins over a `Q` at byte 5.
   */
  lemma SentenceTypeByLeadingBytes(s: Sentence)
    requires Decodable(s) && s.length > 5
    ensures var t, c := Decode(s).sentenceType, s.characters;
      && (t == Encapsulation <==> c[0] == Bang)
      && (t == ProprietarySentence <==> c[0] == Dollar && c[1] == LetterP)
      && (t == QuerySentence <==> c[0] == Dollar && c[1] != LetterP && c[5] == LetterQ)
      && (t == Parametric <==> c[0] == Dollar && c[1] != LetterP && c[5] != LetterQ)
  {
  }

  // ---------------------------------------------------------------------
  // Decoding a sentence as a talker writes it

  /** The bytes in use of `s` are `text`. */
  predicate Holds(s: Sentence, text: seq<u8>)
  {
    s.length == |text| <= MaxLength && s.characters[..s.length] == text
  }

  /** Bytes of a buffer that begins with `text` are the bytes of `text`. */
  lemma SliceOfPrefix(c: seq<u8>, text: seq<u8>, i: nat, j: nat)
    requires |text| <= |c| && c[..|text|] == text && i <= j <= |text|
    ensures c[i..j] == text[i..j]
  {
    forall k | 0 <= k < j - i
      ensures c[i..j][k] == text[i..j][k]
    {
      assert c[i + k] == c[..|text|][i + k];
    }
  }

  /** A sentence holding a head, a payload and a three-byte tail: where each lies in the buffer. */
  lemma Framed(s: Sentence, head: seq<u8>, payload: seq<u8>, tail: seq<u8>)
    requires |tail| == 3 && Holds(s, head + payload + tail)
    ensures |head| + 3 <= s.length
    ensures s.characters[..|head|] == head
    ensures s.characters[|head|..s.length - 3] == payload
  {
    var text := head + payload + tail;
    SliceOfPrefix(s.characters, text, 0, |head|);
    SliceOfPrefix(s.characters, text, |head|, |text| - 3);
    assert text[|head|..|text| - 3] == payload;
  }

  /**
   * `$` or `!`, talker, formatter, one separator byte, the payload and a
   * three-byte tail (`*hh`), whatever the buffer holds after them: decoding
   * gives back the talker, the formatter and exactly the payload.
   */
  lemma ApprovedRoundTrip(s: Sentence, start: u8, talker: seq<u8>, formatter: seq<u8>, sep: u8, payload: seq<u8>, tail: seq<u8>)
    requires IsStart(start) && |talker| == 2 && |formatter| == 3 && |tail| == 3
    requires start == Dollar ==> talker[0] != LetterP && formatter[2] != LetterQ
    requires Holds(s, [start] + talker + formatter + [sep] + payload + tail)
    ensures Decodable(s)
    ensures Decode(s) == DecodedContent(
      if start == Bang then Encapsulation else Parametric,
      Some(AddressField(ApprovedAddress, Approved(Text(talker), Text(formatter)))),
      payload)
  {
    var head := [start] + talker + formatter + [sep];
    var c := s.characters;
    Framed(s, head, payload, tail);
    assert c[0] == start && c[1] == talker[0] && c[5] == formatter[2] by {
      assert c[..7][0] == head[0] && c[..7][1] == head[1] && c[..7][5] == head[5];
    }
    assert c[1..3] == talker && c[3..6] == formatter by {
      SliceOfPrefix(c, head, 1, 3);
      SliceOfPrefix(c, head, 3, 6);
      assert head[1..3] == talker && head[3..6] == formatter;
    }
  }

  /** `$`, listener, talker, `Q`, then the payload and `*hh`: decoding gives back the three. */
  lemma QueryRoundTrip(s: Sentence, listener: seq<u8>, talker: seq<u8>, payload: seq<u8>, tail: seq<u8>)
    requires |listener| == 2 && |talker| == 2 && |tail| == 3
    requires listener[0] != LetterP
    requires Holds(s, [Dollar] + listener + talker + [LetterQ] + payload + tail)
    ensures Decodable(s)
    ensures Decode(s) == DecodedContent(QuerySentence, Some(AddressField(QueryAddress, Query(Text(listener), Text(talker)))), payload)
  {
    var head := [Dollar] + listener + talker + [LetterQ];
    var c := s.characters;
    Framed(s, head, payload, tail);
    assert c[0] == Dollar && c[1] == listener[0] && c[5] == LetterQ by {
      assert c[..6][0] == head[0] && c[..6][1] == head[1] && c[..6][5] == head[5];
    }
    assert c[1..3] == listener && c[3..5] == talker by {
      SliceOfPrefix(c, head, 1, 3);
      SliceOfPrefix(c, head, 3, 5);
      assert head[1..3] == listener && head[3..5] == talker;
    }
  }

  /**
   * `$P`, two more bytes, then the payload and `*hh`: the manufacturer code
   * is `P` and those two bytes, and the payload follows at once, whatever
   * byte 5 is.
   */
  lemma ProprietaryRoundTrip(s: Sentence, code: seq<u8>, payload: seq<u8>, tail: seq<u8>)
    requires |code| == 2 && |tail| == 3
    requires Holds(s, [Dollar, LetterP] + code + payload + tail)
    ensures Decodable(s)
    ensures Decode(s) == DecodedContent(ProprietarySentence, Some(AddressField(ProprietaryAddress, Proprietary(Text([LetterP] + code)))), payload)
  {
    var head := [Dollar, LetterP] + code;
    var c := s.characters;
    Framed(s, head, payload, tail);
    assert c[0] == Dollar && c[1] == LetterP by {
      assert c[..4][0] == head[0] && c[..4][1] == head[1];
    }
    assert c[1..4] == [LetterP] + code by {
      SliceOfPrefix(c, head, 1, 4);
      assert head[1..4] == [LetterP] + code;
    }
  }

  /** `$PABC,` decodes to the manufacturer code `PAB`; the payload starts with `C,`. */
  lemma ProprietaryCodeIncludesP(s: Sentence, payload: seq<u8>, tail: seq<u8>)
    requires |tail| == 3
    requires Holds(s, [Dollar, LetterP, 0x41, 0x42, 0x43, Comma] + payload + tail)
    ensures Decodable(s)
    ensures Decode(s).address == Some(AddressField(ProprietaryAddress, Proprietary("PAB")))
    ensures Decode(s).content == [0x43, Comma] + payload
  {
    assert [Dollar, LetterP] + [0x41, 0x42] + ([0x43, Comma] + payload) + tail
      == [Dollar, LetterP, 0x41, 0x42, 0x43, Comma] + payload + tail;
    ProprietaryRoundTrip(s, [0x41, 0x42], [0x43, Comma] + payload, tail);
    assert Text([LetterP] + [0x41, 0x42]) == "PAB";
  }

  // ---------------------------------------------------------------------
  // Decoding a frame the scanner returns

  /**
   * Any frame of `$`, a body of at least six bytes and a tail of at least
   * three: the payload is the body from the offset on, followed by the tail
   * without its last three bytes.
   */
  lemma PayloadOfBody(s: Sentence, body: seq<u8>, tail: seq<u8>)
    requires |body| >= 6 && |tail| >= 3 && Holds(s, [Dollar] + body + tail)
    ensures Decodable(s) && Decode(s).sentenceType != InvalidSentence
    ensures Decode(s).content == body[PayloadStart(s.characters) - 1..] + tail[..|tail| - 3]
  {
    var c := s.characters;
    var text := [Dollar] + body + tail;
    assert c[0] == Dollar by {
      assert c[..|text|][0] == text[0];
    }
    var p := PayloadStart(c);
    SliceOfPrefix(c, text, p, |text| - 3);
    assert text[p..|text| - 3] == body[p - 1..] + tail[..|tail| - 3];
  }

  /**
   * A frame holding a sentence with its checksum digits `h` and CR LF keeps
   * the CR LF in `length`, so `decode` cuts its payload two bytes late: the
   * payload ends with `*` and the first checksum digit.
   */
  lemma TerminatedPayloadKeepsStar(f: Sentence, body: seq<u8>, h: seq<u8>)
    requires |body| >= 6 && |h| == 2 && Holds(f, [Dollar] + body + [Star] + h + [CR, LF])
    ensures Decodable(f) && Decode(f).sentenceType != InvalidSentence
    ensures Decode(f).content == body[PayloadStart(f.characters) - 1..] + [Star, h[0]]
  {
    var tail := [Star] + h + [CR, LF];
    assert [Dollar] + body + [Star] + h + [CR, LF] == [Dollar] + body + tail;
    PayloadOfBody(f, body, tail);
    assert tail[..2] == [Star, h[0]];
  }

  /** The frame the scanner returns for an encoded sentence is such a frame. */
  lemma ScannedPayloadKeepsStar(body: seq<u8>, rest: seq<u8>)
    requires Sendable(body) && |body| >= 6
    ensures var r := Scan(Encode(body) + rest);
      && r.Some? && Decodable(r.value)
      && var d := Decode(r.value);
      && d.sentenceType != InvalidSentence
      && d.content == body[PayloadStart(r.value.characters) - 1..] + [Star, Hex2(Xor(body))[0]]
  {
    ScanOfEncoded(body, rest);
    EncodeLayout(body, Xor(body));
    TerminatedPayloadKeepsStar(Scan(Encode(body) + rest).value, body, Hex2(Xor(body)));
  }

  /** Without CR LF in the length, as the unit test builds sentences, the same bytes give the payload alone. */
  lemma UnterminatedPayloadIsExact(s: Sentence, body: seq<u8>)
    requires |body| >= 6 && Holds(s, [Dollar] + Checked(body))
    ensures Decodable(s) && Decode(s).sentenceType != InvalidSentence
    ensures Decode(s).content == body[PayloadStart(s.characters) - 1..]
  {
    var tail := [Star] + Hex2(Xor(body));
    assert [Dollar] + Checked(body) == [Dollar] + body + tail;
    PayloadOfBody(s, body, tail);
    assert tail[..0] == [];
  }

  /**
   * The scanner returns frames of 6 to 9 bytes, such as `$GPGG` CR LF, for
   * which `decode` slices `[7..4]` and panics.
   */
  lemma ShortScannedFrameCannotBeDecoded()
    ensures var r := Scan([Dollar, 0x47, 0x50, 0x47, 0x47, CR, LF]);
      r.Some? && r.value.length == 7 && !Decodable(r.value)
  {
    var xs := [0x47, 0x50, 0x47, 0x47];
    ReadStartingWithFrame(Dollar, xs, []);
    assert [Dollar] + xs + [CR, LF] + [] == [Dollar, 0x47, 0x50, 0x47, 0x47, CR, LF];
  }

  /** Frames of ten bytes or more, the shortest that carry an address and `*hh`, never break the slice. */
  lemma LongScannedFrameIsDecodable(read: seq<u8>)
    ensures var r := Scan(read); r.Some? && r.value.length >= 10 ==> Decodable(r.value)
  {
  }

  /** The frames whose payload slice `[offset..length - 3]` lies inside the buffer. */
  predicate SliceFits(s: Sentence)
  {
    s.length > 5 && IsStart(s.characters[0]) && PayloadStart(s.characters) <= s.length - 3 <= MaxLength
  }

  /**
   * `decode` with its length guard extended to the payload slice: a frame
   * too short for the slice of its kind is reported invalid, as frames of
   * five bytes or fewer are, instead of panicking. It is defined on every
   * sentence, and agrees with `decode` wherever `decode` does not panic.
   */
  function DecodeChecked(s: Sentence): (d: DecodedContent)
    ensures d.sentenceType == InvalidSentence <==> !SliceFits(s)
    ensures d.sentenceType == InvalidSentence ==> d.address == None && d.content == s.characters
    ensures Decodable(s) ==> d == Decode(s)
  {
    if SliceFits(s) then Decode(s) else DecodedContent(InvalidSentence, None, s.characters)
  }

  /** The short frame that makes `decode` panic is reported invalid instead. */
  lemma ShortScannedFrameIsInvalid()
    ensures var r := Scan([Dollar, 0x47, 0x50, 0x47, 0x47, CR, LF]);
      r.Some? && DecodeChecked(r.value).sentenceType == InvalidSentence
  {
    ShortScannedFrameCannotBeDecoded();
  }

  // ---------------------------------------------------------------------
  // The field splitter

  /** `content.split(|&x| x == b',')`: the pieces between commas, empty ones kept. */
  function Split(s: seq<u8>): (fields: seq<seq<u8>>)
    ensures |fields| >= 1
    ensures forall i :: 0 <= i < |fields| ==> Comma !in fields[i]
    decreases |s|
  {
    if s == [] then [[]]
    else
      var rest := Split(s[1..]);
      if s[0] == Comma then [[]] + rest
      else [[s[0]] + rest[0]] + rest[1..]
  }

  /** One piece more than there are commas. */
  lemma {:induction false} SplitCount(s: seq<u8>)
    ensures |Split(s)| == multiset(s)[Comma] + 1
    decreases |s|
  {
    if s != [] {
      SplitCount(s[1..]);
      assert s == [s[0]] + s[1..];
    }
  }

  /** `parse_content_fields` */
  function ParseContentFields(d: DecodedContent): (fields: seq<seq<u8>>)
    ensures |fields| == multiset(d.content)[Comma] + 1
    ensures forall i :: 0 <= i < |fields| ==> Comma !in fields[i]
    ensures Join(fields) == d.content
  {
    SplitCount(d.content);
    JoinSplit(d.content);
    Split(d.content)
  }

  /** The pieces put back together with a `,` between each two. */
  function Join(fields: seq<seq<u8>>): seq<u8>
    requires |fields| >= 1
    decreases |fields|
  {
    if |fields| == 1 then fields[0] else fields[0] + [Comma] + Join(fields[1..])
  }

  lemma JoinCons(f: seq<u8>, fields: seq<seq<u8>>)
    requires |fields| >= 1
    ensures Join([f] + fields) == f + [Comma] + Join(fields)
  {
    assert ([f] + fields)[1..] == fields;
  }

  /** Joining the pieces with `,` restores the content. */
  lemma {:induction false} JoinSplit(s: seq<u8>)
    ensures Join(Split(s)) == s
    decreases |s|
  {
    if Comma !in s {
      SplitPrefix(s, []);
      assert s + [] == s;
    } else {
      var i := FirstComma(s);
      var a, t := s[..i], s[i + 1..];
      assert s == a + [Comma] + t;
      SplitAtComma(a, t);
      JoinSplit(t);
      JoinCons(a, Split(t));
    }
  }

  /** The index of the first `,`. */
  function FirstComma(s: seq<u8>): (i: nat)
    requires Comma in s
    ensures i < |s| && s[i] == Comma && Comma !in s[..i]
  {
    if s[0] == Comma then 0 else
      var i := FirstComma(s[1..]);
      assert s[..i + 1] == [s[0]] + s[1..][..i];
      i + 1
  }

  /** Bytes without a comma, then more: the bytes are the first piece. */
  lemma {:induction false} SplitPrefix(a: seq<u8>, t: seq<u8>)
    requires Comma !in a
    ensures Split(a + t) == [a + Split(t)[0]] + Split(t)[1..]
    decreases |a|
  {
    if a != [] {
      var r := Split(t);
      assert (a + t)[1..] == a[1..] + t;
      SplitPrefix(a[1..], t);
      assert a == [a[0]] + a[1..];
      assert [a[0]] + (a[1..] + r[0]) == a + r[0];
    } else {
      assert a + t == t && a + Split(t)[0] == Split(t)[0];
      assert Split(t) == [Split(t)[0]] + Split(t)[1..];
    }
  }

  /** Bytes without a comma, a comma, then more: the bytes are the first piece, the rest split on their own. */
  lemma SplitAtComma(a: seq<u8>, t: seq<u8>)
    requires Comma !in a
    ensures Split(a + [Comma] + t) == [a] + Split(t)
  {
    var u := [Comma] + t;
    assert Split(u) == [[]] + Split(t) by {
      assert u[1..] == t;
    }
    assert a + [Comma] + t == a + u;
    SplitPrefix(a, u);
    assert a + [] == a;
  }

  /** Splitting pieces joined with `,` gives back the pieces, empty ones included. */
  lemma {:induction false} SplitJoin(fields: seq<seq<u8>>)
    requires |fields| >= 1
    requires forall i :: 0 <= i < |fields| ==> Comma !in fields[i]
    ensures Split(Join(fields)) == fields
    decreases |fields|
  {
    if |fields| == 1 {
      SplitPrefix(fields[0], []);
      assert fields[0] + [] == fields[0];
    } else {
      var later := fields[1..];
      SplitJoin(later);
      SplitAtComma(fields[0], Join(later));
      assert fields == [fields[0]] + later;
    }
  }

  // ---------------------------------------------------------------------
  // The unit test of `parse_content_fields`

  /** The seventeen pieces the test expects, the fourteenth empty. */
  function GsaTestFields(): seq<seq<u8>>
  {
    [[0x41]] + (  // A
    [[0x33]] + (  // 3
    [[0x33, 0x32]] + (  // 32
    [[0x32, 0x31]] + (  // 21
    [[0x32, 0x32]] + (  // 22
    [[0x30, 0x31]] + (  // 01
    [[0x30, 0x33]] + (  // 03
    [[0x33, 0x31]] + (  // 31
    [[0x30, 0x34]] + (  // 04
    GsaTestLaterFields())))))))))
  }

  /** The pieces from the tenth on. */
  function GsaTestLaterFields(): seq<seq<u8>>
  {
    [[0x31, 0x37]] + (  // 17
    [[0x30, 0x38]] + (  // 08
    [[0x37, 0x31]] + (  // 71
    [[0x37, 0x32]] + (  // 72
    [[]] + (  // empty
    [[0x31, 0x2E, 0x35, 0x30]] + (  // 1.50
    [[0x30, 0x2E, 0x39, 0x30]] + (  // 0.90
    [[0x31, 0x2E, 0x32, 0x30]])))))))  // 1.20
  }

  /** `$GPGSA,`, the pieces joined by `,`, then `*07`: the sentence of the test, 62 bytes. */
  function GsaTestText(): (t: seq<u8>)
    ensures |t| == 62
  {
    GsaTestFieldsLength();
    [Dollar] + [0x47, 0x50] + [0x47, 0x53, 0x41] + [Comma] + Join(GsaTestFields()) + [Star, 0x30, 0x37]
  }

  lemma GsaTestLaterLength()
    ensures |GsaTestLaterFields()| >= 1 && |Join(GsaTestLaterFields())| == 27
  {
    var r16 := [[0x31, 0x2E, 0x32, 0x30]];
    var r15 := [[0x30, 0x2E, 0x39, 0x30]] + r16;
    JoinCons([0x30, 0x2E, 0x39, 0x30], r16);
    assert |Join(r15)| == 9;
    var r14 := [[0x31, 0x2E, 0x35, 0x30]] + r15;
    JoinCons([0x31, 0x2E, 0x35, 0x30], r15);
    assert |Join(r14)| == 14;
    var r13 := [[]] + r14;
    JoinCons([], r14);
    assert |Join(r13)| == 15;
    var r12 := [[0x37, 0x32]] + r13;
    JoinCons([0x37, 0x32], r13);
    assert |Join(r12)| == 18;
    var r11 := [[0x37, 0x31]] + r12;
    JoinCons([0x37, 0x31], r12);
    assert |Join(r11)| == 21;
    var r10 := [[0x30, 0x38]] + r11;
    JoinCons([0x30, 0x38], r11);
    assert |Join(r10)| == 24;
    var r9 := [[0x31, 0x37]] + r10;
    JoinCons([0x31, 0x37], r10);
    assert |Join(r9)| == 27;
    assert r9 == GsaTestLaterFields();
  }

  lemma GsaTestFieldsLength()
    ensures |Join(GsaTestFields())| == 52
  {
    GsaTestLaterLength();
    var r8 := [[0x30, 0x34]] + GsaTestLaterFields();
    JoinCons([0x30, 0x34], GsaTestLaterFields());
    assert |Join(r8)| == 30;
    var r7 := [[0x33, 0x31]] + r8;
    JoinCons([0x33, 0x31], r8);
    assert |Join(r7)| == 33;
    var r6 := [[0x30, 0x33]] + r7;
    JoinCons([0x30, 0x33], r7);
    assert |Join(r6)| == 36;
    var r5 := [[0x30, 0x31]] + r6;
    JoinCons([0x30, 0x31], r6);
    assert |Join(r5)| == 39;
    var r4 := [[0x32, 0x32]] + r5;
    JoinCons([0x32, 0x32], r5);
    assert |Join(r4)| == 42;
    var r3 := [[0x32, 0x31]] + r4;
    JoinCons([0x32, 0x31], r4);
    assert |Join(r3)| == 45;
    var r2 := [[0x33, 0x32]] + r3;
    JoinCons([0x33, 0x32], r3);
    assert |Join(r2)| == 48;
    var r1 := [[0x33]] + r2;
    JoinCons([0x33], r2);
    assert |Join(r1)| == 50;
    var r0 := [[0x41]] + r1;
    JoinCons([0x41], r1);
    assert |Join(r0)| == 52;
    assert r0 == GsaTestFields();
  }

  lemma GsaTestFieldsShape()
    ensures |GsaTestFields()| == 17 && GsaTestFields()[13] == []
    ensures forall i :: 0 <= i < 17 ==> Comma !in GsaTestFields()[i]
  {
  }

  /**
   * `test_parse_content`: the sentence decodes as a parametric GP GSA sentence
   * and its payload splits into the seventeen expected pieces.
   */
  lemma ParseContentTestVector(s: Sentence)
    requires Holds(s, GsaTestText())
    ensures Decodable(s)
    ensures Decode(s).sentenceType == Parametric
    ensures Decode(s).address == Some(AddressField(ApprovedAddress, Approved("GP", "GSA")))
    ensures ParseContentFields(Decode(s)) == GsaTestFields()
  {
    var fs := GsaTestFields();
    GsaTestFieldsLength();
    ApprovedRoundTrip(s, Dollar, [0x47, 0x50], [0x47, 0x53, 0x41], Comma, Join(fs), [Star, 0x30, 0x37]);
    GsaTestAddressText();
    GsaTestSplits();
  }

  lemma GsaTestAddressText()
    ensures Text([0x47, 0x50]) == "GP" && Text([0x47, 0x53, 0x41]) == "GSA"
  {
  }

  lemma GsaTestSplits()
    ensures Split(Join(GsaTestFields())) == GsaTestFields()
  {
    GsaTestFieldsShape();
    SplitJoin(GsaTestFields());
  }
}
