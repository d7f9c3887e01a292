/**
 * The checksum of a sentence as a talker sends it, and what `valid` makes of
 * it once the scanner has framed it.
 *
 * `calculate_checksum` and `parse_checksum` read the whole 82-byte buffer.
 * On a read that begins with the sentence the bytes past `length` are the
 * spaces the buffer was filled with, which `trim` removes, and `valid`
 * accepts the sentence. But when a dropped candidate came before the
 * sentence in the same read, its bytes are still in the buffer past
 * `length`; they follow the checksum digits into the text `parse_checksum`
 * trims and parses, the parse fails, and an intact sentence is rejected.
 * `FrameChecksumMatches` is the check on the bytes in use only, which
 * accepts every correctly encoded frame whatever the buffer holds.
 */
module FrameChecksum {
  import opened Wrappers
  import opened StdParse
  import opened Reader
  import opened Checksum
  import opened ByteXor

  /** The body, `*` and the body's XOR as two hex digits. */
  function Checked(body: seq<u8>): (c: seq<u8>)
    ensures |c| == |body| + 3
  {
    body + [Star] + Hex2(Xor(body))
  }

  /** A sentence as a talker sends it: `$`, the checked body, CR LF. */
  function Encode(body: seq<u8>): (w: seq<u8>)
    ensures |w| == |body| + 6
  {
    [Dollar] + Checked(body) + [CR, LF]
  }

  /** The bytes of an encoded sentence, one by one. */
  lemma EncodeLayout(body: seq<u8>, x: u8)
    requires x == Xor(body)
    ensures Encode(body) == [Dollar] + body + [Star] + Hex2(x) + [CR, LF]
    ensures Checked(body) == body + [Star] + Hex2(x)
  {
  }

  /**
   * A body that encodes to a frame the scanner accepts: no `*` or CR in it,
   * short enough, and not beginning with a byte the checksum would skip.
   */
  predicate Sendable(body: seq<u8>)
  {
    && |body| <= MaxLength - 6
    && Star !in body
    && NoCR(body)
    && (body == [] || !Skipped(body[0]))
  }

  lemma HexDigitsAreNotSpecial(x: u8)
    ensures forall k :: 0 <= k < 2 ==> !IsWhitespace(Hex2(x)[k]) && Hex2(x)[k] != CR && Hex2(x)[k] != Star
  {
    assert DigitValue(Hex2(x)[0], 16).Some? && DigitValue(Hex2(x)[1], 16).Some?;
  }

  /** Whatever follows an encoded sentence, its checksum covers exactly the body and its field is the hex digits onwards. */
  lemma EncodedSpan(body: seq<u8>, pad: seq<u8>)
    requires Sendable(body)
    ensures ChecksumOf(Encode(body) + pad) == Xor(body)
    ensures AfterStar(Encode(body) + pad) == Hex2(Xor(body)) + [CR, LF] + pad
  {
    var h := Hex2(Xor(body));
    var w := Encode(body) + pad;
    var tail := h + [CR, LF] + pad;
    assert w[1..] == body + [Star] + tail;
    assert SkipStart(w) == w[1..] by {
      SkipStartAt(w, 1);
    }
    assert UpToStar(w[1..]) == body by {
      assert w[1..][..|body|] == body;
      UpToStarAt(w[1..], |body|);
    }
    assert AfterStar(w) == tail by {
      AfterStarSkipsPrefix(w);
      assert w[1..][|body| + 1..] == tail;
    }
  }

  /** `trim` leaves just the two hex digits when only CR LF and white space follow them. */
  lemma HexFieldTrims(x: u8, pad: seq<u8>)
    requires AllWhitespace(pad)
    ensures Trim(Hex2(x) + [CR, LF] + pad) == Hex2(x)
  {
    var s := Hex2(x) + [CR, LF] + pad;
    HexDigitsAreNotSpecial(x);
    assert TrimStart(s) == s;
    TrimEndAt(s, 2);
    assert s[..2] == Hex2(x);
  }

  /** An encoded sentence followed by white space only passes the checksum. */
  lemma EncodedChecksumMatches(body: seq<u8>, pad: seq<u8>)
    requires Sendable(body) && AllWhitespace(pad)
    ensures ChecksumOf(Encode(body) + pad) == Xor(body)
    ensures ChecksumField(Encode(body) + pad) == Xor(body)
  {
    EncodedSpan(body, pad);
    HexFieldTrims(Xor(body), pad);
    Hex2Parses(Xor(body));
  }

  /** The check on the bytes in use, `characters[..length]`, only. */
  predicate FrameChecksumMatches(f: Sentence)
  {
    f.length <= MaxLength && ChecksumOf(f.characters[..f.length]) == ChecksumField(f.characters[..f.length])
  }

  /** A correctly encoded frame passes the check on the bytes in use, whatever else the buffer holds. */
  lemma EncodedFrameChecksumMatches(f: Sentence, body: seq<u8>)
    requires Sendable(body) && f.length <= MaxLength && f.characters[..f.length] == Encode(body)
    ensures FrameChecksumMatches(f)
  {
    EncodedChecksumMatches(body, []);
    assert Encode(body) + [] == Encode(body);
  }

  /** An encoded sentence is a frame the scanner accepts. */
  lemma EncodedIsFrame(body: seq<u8>)
    requires Sendable(body)
    ensures NoCR(Checked(body)) && |Checked(body)| <= MaxLength - 3
  {
    HexDigitsAreNotSpecial(Xor(body));
  }

  /** A read that begins with an encoded sentence yields that sentence, CR LF included in its length. */
  lemma ScanOfEncoded(body: seq<u8>, rest: seq<u8>)
    requires Sendable(body)
    ensures var r := Scan(Encode(body) + rest);
      && r.Some? && r.value.length == |body| + 6
      && r.value.characters[..r.value.length] == Encode(body)
  {
    EncodedIsFrame(body);
    ReadStartingWithFrame(Dollar, Checked(body), rest);
  }

  /**
   * A read that begins with an encoded sentence yields that sentence, and
   * `valid` accepts it: the buffer past it still holds only spaces.
   */
  lemma CleanReadIsValid(body: seq<u8>, rest: seq<u8>)
    requires Sendable(body)
    ensures var r := Scan(Encode(body) + rest);
      && r.Some? && r.value.characters[..r.value.length] == Encode(body)
      && ChecksumMatches(r.value) && FrameChecksumMatches(r.value)
  {
    var w := Encode(body);
    EncodedIsFrame(body);
    ReadStartingWithFrame(Dollar, Checked(body), rest);
    var c := Overwrite(Blank(), 0, w);
    var pad := c[|w|..];
    assert c == w + pad;
    EncodedChecksumMatches(body, pad);
    EncodedFrameChecksumMatches(Sentence(c, |w|), body);
  }

  // ---------------------------------------------------------------------
  // Stale bytes past `length`

  /** `ABCDEFGH`: the bytes of a candidate that is dropped. */
  function Noise(): seq<u8>
  {
    [0x41, 0x42, 0x43, 0x44, 0x45, 0x46, 0x47, 0x48]
  }

  /** `$ABCDEFGH`, CR, an `X` that breaks the terminator, then the sentence `$X*58` CR LF, in one read. */
  function StaleRead(): seq<u8>
  {
    [Dollar] + Noise() + [CR, 0x58] + Encode([0x58])
  }

  lemma EncodedX()
    ensures Xor([0x58]) == 0x58 && Hex2(Xor([0x58])) == [0x35, 0x38]
    ensures Encode([0x58]) == [Dollar, 0x58, Star, 0x35, 0x38, CR, LF]
  {
    assert Xor([0x58]) == Xor8(Xor([]), 0x58) by {
      assert [0x58][..0] == [];
    }
    assert Hex2(0x58) == [0x35, 0x38];
  }

  /** The buffer `next` returns for `StaleRead`: the sentence, then the end of the noise, then spaces. */
  function StaleBuffer(): (c: Buffer)
  {
    Overwrite(Overwrite(Blank(), 0, [Dollar] + Noise() + [CR, 0x58]), 0, Encode([0x58]))
  }

  lemma StaleReadScans()
    ensures Scan(StaleRead()) == Some(Sentence(StaleBuffer(), 7))
  {
    var w := Encode([0x58]);
    NoiseHasNoCR();
    IdleDropsBrokenCandidate(Initial(), Dollar, Noise(), 0x58, w);
    var idle := ScanState(Idle, 0, Overwrite(Blank(), 0, [Dollar] + Noise() + [CR, 0x58]));
    SendableX();
    EncodedIsFrame([0x58]);
    assert w + [] == w;
    IdleFindsFrame(idle, Dollar, Checked([0x58]), []);
  }

  lemma NoiseHasNoCR()
    ensures NoCR(Noise()) && |Noise()| == 8
  {
  }

  lemma SendableX()
    ensures Sendable([0x58])
  {
  }

  lemma StaleBufferBytes()
    ensures StaleBuffer() == Encode([0x58]) + [0x47, 0x48, CR, 0x58] + seq(71, _ => Space)
  {
    EncodedX();
    var a, b := StaleBuffer(), Encode([0x58]) + [0x47, 0x48, CR, 0x58] + seq(71, _ => Space);
    forall k | 0 <= k < 82
      ensures a[k] == b[k]
    {
    }
  }

  /** A run of digits with a CR in it is not a number. */
  lemma DigitsWithCR(s: seq<u8>, k: nat)
    requires 0 < k < |s| && s[k] == CR
    ensures ParseUnsigned(s, 16, 255) == None
  {
    assert !IsDigit(DigitPart(s)[k - (|s| - |DigitPart(s)|)], 16);
  }

  /**
   * Any byte other than white space left in the buffer after an encoded
   * sentence's CR LF ends up in the text `parse_checksum` parses, which then
   * fails: the transmitted checksum reads as 0 while the computed one is the
   * body's XOR.
   */
  lemma LeftoverBytesZeroField(body: seq<u8>, junk: seq<u8>, pad: seq<u8>)
    requires Sendable(body) && junk != [] && !IsWhitespace(junk[|junk| - 1]) && AllWhitespace(pad)
    ensures ChecksumOf(Encode(body) + junk + pad) == Xor(body)
    ensures ChecksumField(Encode(body) + junk + pad) == 0
  {
    var h := Hex2(Xor(body));
    ByteSeqAssoc(Encode(body), junk, pad);
    EncodedSpan(body, junk + pad);
    ByteSeqAssoc(h + [CR, LF], junk, pad);
    LeftoversBreakHexField(Xor(body), junk, pad);
    UnparsedFieldIsZero(Encode(body) + junk + pad);
  }

  lemma ByteSeqAssoc(a: seq<u8>, b: seq<u8>, c: seq<u8>)
    ensures a + (b + c) == a + b + c
  {
  }

  /** A checksum text that does not parse reads as 0. */
  lemma UnparsedFieldIsZero(c: seq<u8>)
    requires ParseUnsigned(Trim(AfterStar(c)), 16, 255) == None
    ensures ChecksumField(c) == 0
  {
  }

  /** The hex digits, CR LF, bytes ending in one that is not white space, then white space: no number. */
  lemma LeftoversBreakHexField(x: u8, junk: seq<u8>, pad: seq<u8>)
    requires junk != [] && !IsWhitespace(junk[|junk| - 1]) && AllWhitespace(pad)
    ensures ParseUnsigned(Trim(Hex2(x) + [CR, LF] + junk + pad), 16, 255) == None
  {
    var kept := Hex2(x) + [CR, LF] + junk;
    HexDigitsAreNotSpecial(x);
    assert TrimStart(kept + pad) == kept + pad;
    TrimEndDropsWhitespace(kept, pad);
    assert kept[|kept| - 1] == junk[|junk| - 1];
    DigitsWithCR(kept, 2);
  }

  /**
   * The sentence in `StaleRead` is returned intact and its checksum is
   * right, yet `valid` rejects it: the field `parse_checksum` trims and
   * parses is `58` CR LF `GH` CR `X`, the stale end of the dropped candidate.
   */
  lemma StaleBytesBreakChecksum()
    ensures var r := Scan(StaleRead());
      && r.Some? && r.value.characters[..r.value.length] == Encode([0x58])
      && FrameChecksumMatches(r.value)
      && !ChecksumMatches(r.value)
  {
    var c := StaleBuffer();
    StaleReadScans();
    StaleBufferChecksums();
    EncodedFrameChecksumMatches(Sentence(c, 7), [0x58]);
  }

  lemma StaleBufferChecksums()
    ensures Sendable([0x58]) && StaleBuffer()[..7] == Encode([0x58])
    ensures ChecksumOf(StaleBuffer()) == 0x58 && ChecksumField(StaleBuffer()) == 0
  {
    StaleBufferBytes();
    assert Sendable([0x58]);
    LeftoverBytesZeroField([0x58], [0x47, 0x48, CR, 0x58], seq(71, _ => Space));
    EncodedX();
  }
}
