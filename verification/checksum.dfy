/**
 * The NMEA 0183 checksum as `NMEASentence::calculate_checksum`,
 * `parse_checksum` and `valid` compute it: the XOR of the bytes after the
 * leading run of `$`, `!` and `,` up to the first `*`, compared with the
 * hexadecimal number written after that `*`.
 *
 * Both functions read the whole 82-byte buffer, not only the `length` bytes
 * in use.
 */
module Checksum {
  import opened Wrappers
  import opened StdParse
  import opened Reader
  import opened ByteXor

  const Star: u8 := 0x2A
  const Comma: u8 := 0x2C

  // ---------------------------------------------------------------------
  // Bytewise XOR

  /** The XOR of all bytes of `s`, accumulated from the left as the loop does. */
  function Xor(s: seq<u8>): u8
    decreases |s|
  {
    if s == [] then 0 else Xor8(Xor(s[..|s| - 1]), s[|s| - 1])
  }

  /** Replacing one byte changes the XOR by exactly the bits that changed. */
  lemma {:induction false} XorOfUpdate(s: seq<u8>, i: nat, x: u8)
    requires i < |s|
    ensures Xor(s[i := x]) == Xor8(Xor8(Xor(s), s[i]), x)
    decreases |s|
  {
    var t := s[i := x];
    var n := |s| - 1;
    if i == n {
      assert t[..n] == s[..n];
      XorCancel(Xor(s[..n]), s[n]);
    } else {
      assert t[..n] == s[..n][i := x];
      XorOfUpdate(s[..n], i, x);
      var p := Xor(s[..n]);
      XorSwap(BitXor(p, s[i]), x, s[n]);
      XorSwap(p, s[i], s[n]);
    }
  }

  // ---------------------------------------------------------------------
  // The span the checksum covers

  /** `$`, `!` and `,`: the bytes `skip_while` passes over at the front. */
  predicate Skipped(b: u8)
  {
    b == Dollar || b == Bang || b == Comma
  }

  /** `skip_while(|c| c == '$' || c == '!' || c == ',')` */
  function SkipStart(s: seq<u8>): (r: seq<u8>)
    ensures |r| <= |s| && r == s[|s| - |r|..]
    ensures forall i :: 0 <= i < |s| - |r| ==> Skipped(s[i])
    ensures r == [] || !Skipped(r[0])
    decreases |s|
  {
    if s != [] && Skipped(s[0]) then SkipStart(s[1..]) else s
  }

  /** The bytes before the first `*`, or all of them when there is none. */
  function UpToStar(s: seq<u8>): (r: seq<u8>)
    ensures |r| <= |s| && r == s[..|r|]
    ensures Star !in r
    ensures |r| < |s| ==> s[|r|] == Star
    decreases |s|
  {
    if s == [] || s[0] == Star then [] else [s[0]] + UpToStar(s[1..])
  }

  /** `skip_while(|c| c != '*').skip(1)`: the bytes after the first `*`, or none when there is no `*`. */
  function AfterStar(s: seq<u8>): (r: seq<u8>)
    ensures Star in s ==> |UpToStar(s)| < |s| && r == s[|UpToStar(s)| + 1..]
    ensures Star !in s ==> r == []
    decreases |s|
  {
    if s == [] then [] else if s[0] == Star then s[1..] else AfterStar(s[1..])
  }

  /** The checksum the frame's own bytes give: the XOR after the skipped prefix, before the first `*`. */
  function ChecksumOf(characters: seq<u8>): u8
  {
    Xor(UpToStar(SkipStart(characters)))
  }

  /** Where `skip_while` stops: the index of the first byte that is not `$`, `!` or `,`. */
  method SkipStartIndex(chars: seq<u8>) returns (i: nat)
    ensures i <= |chars| && chars[i..] == SkipStart(chars)
  {
    i := 0;
    while i < |chars| && (chars[i] == Dollar || chars[i] == Bang || chars[i] == Comma)
      invariant 0 <= i <= |chars|
      invariant forall k :: 0 <= k < i ==> Skipped(chars[k])
    {
      i := i + 1;
    }
  }

  /** The `while let` loop: XOR the bytes of `rest` into an accumulator until a `*` or the end. */
  method XorUpToStar(rest: seq<u8>) returns (acc: u8)
    ensures acc == Xor(UpToStar(rest))
  {
    acc := 0;
    var j := 0;
    while j < |rest| && rest[j] != Star
      invariant j <= |rest|
      invariant Star !in rest[..j]
      invariant acc == Xor(rest[..j])
    {
      assert rest[..j + 1] == rest[..j] + [rest[j]];
      acc := Xor8(acc, rest[j]);
      j := j + 1;
    }
  }

  /** `calculate_checksum`: XOR over the buffer after the skipped prefix, stopping at `*`. */
  method CalculateChecksum(sentence: Sentence) returns (checksum: u8)
    ensures checksum == ChecksumOf(sentence.characters)
  {
    var i := SkipStartIndex(sentence.characters);
    checksum := XorUpToStar(sentence.characters[i..]);
  }

  /** The number after the first `*`, as `u8::from_str_radix(text.trim(), 16)` reads it, or 0. */
  function ChecksumField(characters: seq<u8>): (v: u8)
    ensures Star !in characters ==> v == 0
    ensures var t := Trim(AfterStar(characters));
      |t| == 2 && IsDigit(t[0], 16) && IsDigit(t[1], 16) ==>
        v == DigitValue(t[0], 16).value * 16 + DigitValue(t[1], 16).value
  {
    TwoHexDigitsParse(Trim(AfterStar(characters)));
    match ParseUnsigned(Trim(AfterStar(characters)), 16, 255)
    case Some(v) => v
    case None => 0
  }

  /** `parse_checksum` */
  function ParseChecksum(sentence: Sentence): u8
  {
    ChecksumField(sentence.characters)
  }

  /** What `valid` decides. */
  predicate ChecksumMatches(sentence: Sentence)
  {
    ChecksumOf(sentence.characters) == ParseChecksum(sentence)
  }

  /** `valid` */
  method IsValid(sentence: Sentence) returns (ok: bool)
    ensures ok == ChecksumMatches(sentence)
  {
    var calculated := CalculateChecksum(sentence);
    ok := calculated == ParseChecksum(sentence);
  }

  // ---------------------------------------------------------------------
  // A changed byte in the covered span is detected

  /** Where the covered span starts: the length of the skipped prefix. */
  function SpanStart(s: seq<u8>): (p: nat)
    ensures p <= |s| && s[p..] == SkipStart(s)
  {
    |s| - |SkipStart(s)|
  }

  /** The skipped prefix is exactly the leading run of `$`, `!` and `,`. */
  lemma {:induction false} SkipStartAt(s: seq<u8>, p: nat)
    requires p <= |s| && forall k :: 0 <= k < p ==> Skipped(s[k])
    requires p == |s| || !Skipped(s[p])
    ensures SkipStart(s) == s[p..]
    decreases p
  {
    if p > 0 {
      assert s[1..][p - 1..] == s[p..];
      SkipStartAt(s[1..], p - 1);
    }
  }

  lemma SkipStartOfUpdate(s: seq<u8>, i: nat, x: u8)
    requires SpanStart(s) <= i < |s|
    requires i == SpanStart(s) ==> !Skipped(x)
    ensures SkipStart(s[i := x]) == SkipStart(s)[i - SpanStart(s) := x]
  {
    var p, t := SpanStart(s), s[i := x];
    assert forall k :: 0 <= k < p ==> t[k] == s[k];
    SkipStartAt(t, p);
    assert t[p..] == s[p..][i - p := x];
  }

  /** The bytes before the first `*` are exactly those before a `*` with none in front of it. */
  lemma UpToStarAt(s: seq<u8>, q: nat)
    requires q <= |s| && Star !in s[..q] && (q == |s| || s[q] == Star)
    ensures UpToStar(s) == s[..q]
  {
  }

  lemma UpToStarOfUpdate(s: seq<u8>, i: nat, x: u8)
    requires i < |UpToStar(s)| && x != Star
    ensures UpToStar(s[i := x]) == UpToStar(s)[i := x]
    ensures AfterStar(s[i := x]) == AfterStar(s)
  {
    var q, t := |UpToStar(s)|, s[i := x];
    assert t[..q] == UpToStar(s)[i := x];
    UpToStarAt(t, q);
  }

  /** The skipped prefix holds no `*`, so the checksum field is found after it. */
  lemma {:induction false} AfterStarSkipsPrefix(s: seq<u8>)
    ensures AfterStar(s) == AfterStar(SkipStart(s))
    decreases |s|
  {
    if s != [] && Skipped(s[0]) {
      AfterStarSkipsPrefix(s[1..]);
    }
  }

  /** A byte changed inside the covered span changes the computed checksum by the bits that changed. */
  lemma ChecksumOfUpdate(c: seq<u8>, i: nat, x: u8)
    requires SpanStart(c) <= i < SpanStart(c) + |UpToStar(SkipStart(c))|
    requires x != Star && (i == SpanStart(c) ==> !Skipped(x))
    ensures ChecksumOf(c[i := x]) == Xor8(Xor8(ChecksumOf(c), c[i]), x)
  {
    var p, span, t := SpanStart(c), SkipStart(c), c[i := x];
    var u, v := UpToStar(span), i - p;
    assert SkipStart(t) == span[v := x] by {
      SkipStartOfUpdate(c, i, x);
    }
    assert UpToStar(span[v := x]) == u[v := x] by {
      UpToStarOfUpdate(span, v, x);
    }
    assert u[v] == c[i] by {
      assert span[v] == c[i];
    }
    XorOfUpdate(u, v, x);
  }

  /** ... and leaves the text after the first `*`, the transmitted checksum, alone. */
  lemma AfterStarOfUpdate(c: seq<u8>, i: nat, x: u8)
    requires SpanStart(c) <= i < SpanStart(c) + |UpToStar(SkipStart(c))|
    requires x != Star && (i == SpanStart(c) ==> !Skipped(x))
    ensures AfterStar(c[i := x]) == AfterStar(c)
  {
    var p, span, t := SpanStart(c), SkipStart(c), c[i := x];
    var span' := SkipStart(t);
    assert span' == span[i - p := x] by {
      SkipStartOfUpdate(c, i, x);
    }
    assert AfterStar(span') == AfterStar(span) by {
      UpToStarOfUpdate(span, i - p, x);
    }
    assert AfterStar(c) == AfterStar(span) by {
      AfterStarSkipsPrefix(c);
    }
    assert AfterStar(t) == AfterStar(span') by {
      AfterStarSkipsPrefix(t);
    }
  }

  /**
   * Replacing one byte of the span the checksum covers by any other byte
   * that is not a `*` (nor, at the first covered position, a `$`, `!` or
   * `,`) changes the computed checksum and leaves the transmitted one alone:
   * a sentence that was valid no longer is.
   */
  lemma CorruptedByteIsDetected(f: Sentence, i: nat, x: u8)
    requires SpanStart(f.characters) <= i < SpanStart(f.characters) + |UpToStar(SkipStart(f.characters))|
    requires x != f.characters[i] && x != Star
    requires i == SpanStart(f.characters) ==> !Skipped(x)
    ensures var g := Sentence(f.characters[i := x], f.length);
      && ChecksumOf(g.characters) != ChecksumOf(f.characters)
      && ParseChecksum(g) == ParseChecksum(f)
      && (ChecksumMatches(f) ==> !ChecksumMatches(g))
  {
    var c := f.characters;
    var before := ChecksumOf(c);
    assert ChecksumOf(c[i := x]) != before by {
      ChecksumOfUpdate(c, i, x);
      XorCancel(before, c[i]);
      XorInjective(BitXor(before, c[i]), x, c[i]);
    }
    assert ChecksumField(c[i := x]) == ChecksumField(c) by {
      AfterStarOfUpdate(c, i, x);
    }
  }
}
