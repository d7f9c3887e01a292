/**
 * The sentence scanner of `NMEASentenceReader::next`: one buffered read is
 * scanned byte by byte by a four-state machine that copies a candidate
 * sentence into a fixed 82-byte buffer and hands the buffer out once the
 * candidate is closed by CR LF.
 *
 * `Scan` is the state machine written as a function over the read; the method
 * `Next` is the loop over a local array that the source runs, and is proved to
 * compute `Scan`. The lemmas below state what every frame `Scan` returns
 * looks like, and how the scanner resynchronises on noise.
 */
module Reader {
  import opened Wrappers
  import opened StdParse

  /** NMEA_SENTENCE_MAX_LENGTH */
  const MaxLength: nat := 82

  const Dollar: u8 := 0x24
  const Bang: u8 := 0x21
  const CR: u8 := 0x0D
  const LF: u8 := 0x0A
  const Space: u8 := 0x20

  /** `[u8; NMEA_SENTENCE_MAX_LENGTH]` */
  type Buffer = s: seq<u8> | |s| == 82 witness seq(82, _ => 0x20)

  /** `NMEASentence`: the whole buffer and the number of bytes of it in use. */
  datatype Sentence = Sentence(characters: Buffer, length: nat)

  /** `SentenceStatus`; `Idle` is the source's NONE. */
  datatype SentenceStatus = Idle | Started | Terminated | Completed

  /** The scanner's local variables between two bytes. */
  datatype ScanState = ScanState(status: SentenceStatus, length: nat, sentence: Buffer)

  predicate IsStart(b: u8)
  {
    b == Dollar || b == Bang
  }

  /** The length each status allows; every array write of `Step` is in bounds. */
  predicate WellFormed(st: ScanState)
  {
    match st.status
    case Idle => st.length == 0
    case Started => 1 <= st.length <= MaxLength - 2
    case Terminated => 2 <= st.length <= MaxLength - 1
    case Completed => 3 <= st.length <= MaxLength
  }

  /** The buffer filled with spaces, as `next` allocates it. */
  function Blank(): (b: Buffer)
    ensures forall i :: 0 <= i < |b| ==> b[i] == Space
  {
    seq(82, _ => Space)
  }

  function Initial(): ScanState
  {
    ScanState(Idle, 0, Blank())
  }

  /** One iteration of the `for byte in buf.iter()` loop, before completion. */
  function Step(st: ScanState, b: u8): (next: ScanState)
    requires WellFormed(st) && st.status != Completed
    ensures WellFormed(next)
    ensures next.length <= st.length + 1
    ensures next.status == Completed ==> st.status == Terminated && b == LF
    ensures st.status == Terminated && b != LF ==> next.status == Idle
  {
    match st.status
    case Idle =>
      if IsStart(b) then ScanState(Started, 1, st.sentence[0 := b]) else st
    case Started =>
      var s := st.sentence[st.length := b];
      if b == CR then ScanState(Terminated, st.length + 1, s)
      else if st.length + 1 > MaxLength - 2 then ScanState(Idle, 0, s)
      else ScanState(Started, st.length + 1, s)
    case Terminated =>
      var s := st.sentence[st.length := b];
      if b == LF then ScanState(Completed, st.length + 1, s)
      else ScanState(Idle, 0, s)
  }

  /** The rest of the loop: a completed frame is returned before the next byte is looked at. */
  function ScanFrom(st: ScanState, rest: seq<u8>): (r: Option<Sentence>)
    requires WellFormed(st)
    ensures r.Some? ==> 3 <= r.value.length <= MaxLength
    decreases |rest|
  {
    if st.status == Completed then Some(Sentence(st.sentence, st.length))
    else if rest == [] then None
    else ScanFrom(Step(st, rest[0]), rest[1..])
  }

  /** What `next` returns for one read. */
  function Scan(read: seq<u8>): (r: Option<Sentence>)
    ensures read == [] ==> r == None
    ensures r.Some? ==> 3 <= r.value.length <= MaxLength
  {
    if |read| < 1 then None else ScanFrom(Initial(), read)
  }

  /** `NMEASentenceReader::next`, given the bytes `read_until` returned. */
  method Next(read: seq<u8>) returns (r: Option<Sentence>)
    ensures r == Scan(read)
  {
    if |read| < 1 {
      return None;
    }
    var status := Idle;
    var length: nat := 0;
    var sentence := new u8[MaxLength](_ => Space);
    assert sentence[..] == Blank();
    for i := 0 to |read|
      invariant sentence.Length == MaxLength
      invariant WellFormed(ScanState(status, length, sentence[..]))
      invariant ScanFrom(ScanState(status, length, sentence[..]), read[i..]) == Scan(read)
    {
      var byte := read[i];
      match status {
        case Idle =>
          if byte == Dollar || byte == Bang {
            sentence[length] := byte;
            status := Started;
            length := length + 1;
          }
        case Started =>
          sentence[length] := byte;
          length := length + 1;
          if byte == CR {
            status := Terminated;
          } else if length > MaxLength - 2 {
            length := 0;
            status := Idle;
          }
        case Terminated =>
          sentence[length] := byte;
          length := length + 1;
          if byte == LF {
            status := Completed;
          } else {
            length := 0;
            status := Idle;
          }
        case Completed =>
          return Some(Sentence(sentence[..], length));
      }
    }
    if status == Completed {
      r := Some(Sentence(sentence[..], length));
    } else {
      r := None;
    }
  }

  // ---------------------------------------------------------------------
  // Reads without a start byte

  lemma {:induction false} IdleWithoutStartFindsNothing(st: ScanState, rest: seq<u8>)
    requires WellFormed(st) && st.status == Idle
    requires forall i :: 0 <= i < |rest| ==> !IsStart(rest[i])
    ensures ScanFrom(st, rest) == None
    decreases |rest|
  {
    if rest != [] {
      IdleWithoutStartFindsNothing(Step(st, rest[0]), rest[1..]);
    }
  }

  /** An empty read, or one without a `$` or `!` byte, yields no frame. */
  lemma NoStartByteNoFrame(read: seq<u8>)
    requires forall i :: 0 <= i < |read| ==> !IsStart(read[i])
    ensures Scan(read) == None
  {
    if |read| >= 1 {
      IdleWithoutStartFindsNothing(Initial(), read);
    }
  }

  // ---------------------------------------------------------------------
  // The shape of a returned frame

  predicate NoCR(s: seq<u8>)
  {
    forall k :: 0 <= k < |s| ==> s[k] != CR
  }

  /**
   * A frame as the scanner hands it out: it starts with `$` or `!`, its last
   * two bytes in use are CR LF, no other CR occurs in it, and it fits.
   */
  predicate IsFrame(f: Sentence)
  {
    && 3 <= f.length <= MaxLength
    && IsStart(f.characters[0])
    && f.characters[f.length - 2] == CR
    && f.characters[f.length - 1] == LF
    && NoCR(f.characters[..f.length - 2])
  }

  /** What the bytes in use look like in each status. */
  predicate Shaped(st: ScanState)
    requires WellFormed(st)
  {
    var s, n := st.sentence, st.length;
    match st.status
    case Idle => true
    case Started => IsStart(s[0]) && NoCR(s[..n])
    case Terminated => IsStart(s[0]) && s[n - 1] == CR && NoCR(s[..n - 1])
    case Completed => IsFrame(Sentence(s, n))
  }

  lemma StepKeepsShape(st: ScanState, b: u8)
    requires WellFormed(st) && st.status != Completed && Shaped(st)
    ensures Shaped(Step(st, b))
  {
    var next := Step(st, b);
    if next.status != Idle && st.status != Idle {
      assert next.sentence[..st.length] == st.sentence[..st.length];
    }
  }

  lemma {:induction false} ScanFromYieldsFrames(st: ScanState, rest: seq<u8>)
    requires WellFormed(st) && Shaped(st)
    ensures ScanFrom(st, rest).Some? ==> IsFrame(ScanFrom(st, rest).value)
    decreases |rest|
  {
    if st.status != Completed && rest != [] {
      StepKeepsShape(st, rest[0]);
      ScanFromYieldsFrames(Step(st, rest[0]), rest[1..]);
    }
  }

  /** Every frame `next` returns is a well-formed, CR LF terminated frame of at most 82 bytes. */
  lemma ScannedFrameIsFrame(read: seq<u8>)
    ensures Scan(read).Some? ==> IsFrame(Scan(read).value)
  {
    if |read| >= 1 {
      ScanFromYieldsFrames(Initial(), read);
    }
  }

  // ---------------------------------------------------------------------
  // A frame is a contiguous piece of the read

  predicate OccursAt(w: seq<u8>, s: seq<u8>, k: nat)
  {
    k + |w| <= |s| && s[k..k + |w|] == w
  }

  lemma {:induction false} ScanFromIsContiguous(st: ScanState, done: seq<u8>, rest: seq<u8>)
    requires WellFormed(st) && st.length <= |done|
    requires st.sentence[..st.length] == done[|done| - st.length..]
    ensures var r := ScanFrom(st, rest);
      r.Some? ==> exists k :: OccursAt(r.value.characters[..r.value.length], done + rest, k)
    decreases |rest|
  {
    if st.status == Completed {
      var k := |done| - st.length;
      assert (done + rest)[k..k + st.length] == done[k..];
      assert OccursAt(st.sentence[..st.length], done + rest, k);
    } else if rest != [] {
      var b := rest[0];
      var next := Step(st, b);
      var done' := done + [b];
      if next.length > 0 {
        if st.status == Idle {
          assert next.sentence[..1] == [b];
        } else {
          assert next.sentence[..next.length] == st.sentence[..st.length] + [b];
        }
        assert done'[|done'| - next.length..] == done[|done| - st.length..] + [b];
      }
      assert done' + rest[1..] == done + rest;
      ScanFromIsContiguous(next, done', rest[1..]);
    }
  }

  /** The bytes in use of a returned frame are a contiguous stretch of the read. */
  lemma ScannedFrameIsInRead(read: seq<u8>)
    ensures var r := Scan(read);
      r.Some? ==> exists k :: OccursAt(r.value.characters[..r.value.length], read, k)
  {
    if |read| >= 1 {
      ScanFromIsContiguous(Initial(), [], read);
      assert [] + read == read;
    }
  }

  // ---------------------------------------------------------------------
  // Resynchronisation

  /** Two results that agree on everything but the stale bytes past `length`. */
  predicate SameFrame(x: Option<Sentence>, y: Option<Sentence>)
  {
    match (x, y)
    case (None, None) => true
    case (Some(f), Some(g)) =>
      f.length == g.length && f.length <= MaxLength
      && f.characters[..f.length] == g.characters[..g.length]
    case _ => false
  }

  /** Two scanner states that differ at most in the bytes past `length`. */
  predicate Agree(a: ScanState, b: ScanState)
  {
    a.status == b.status && a.length == b.length && a.length <= MaxLength
    && a.sentence[..a.length] == b.sentence[..b.length]
  }

  lemma {:induction false} AgreeingStatesScanAlike(a: ScanState, b: ScanState, rest: seq<u8>)
    requires WellFormed(a) && WellFormed(b) && Agree(a, b)
    ensures SameFrame(ScanFrom(a, rest), ScanFrom(b, rest))
    decreases |rest|
  {
    if a.status != Completed && rest != [] {
      var x := rest[0];
      var a', b' := Step(a, x), Step(b, x);
      if a'.length > 0 && a.status != Idle {
        assert a'.sentence[..a'.length] == a.sentence[..a.length] + [x];
        assert b'.sentence[..b'.length] == b.sentence[..b.length] + [x];
      }
      if a'.length > 0 && a.status == Idle {
        assert a'.sentence[..1] == [x] == b'.sentence[..1];
      }
      AgreeingStatesScanAlike(a', b', rest[1..]);
    }
  }

  lemma {:induction false} OverlongCandidateResets(st: ScanState, xs: seq<u8>, rest: seq<u8>)
    requires WellFormed(st) && st.status == Started
    requires |xs| >= 1 && st.length + |xs| == MaxLength - 1 && NoCR(xs)
    ensures SameFrame(ScanFrom(st, xs + rest), ScanFrom(Initial(), rest))
    decreases |xs|
  {
    var next := Step(st, xs[0]);
    assert (xs + rest)[1..] == xs[1..] + rest;
    if |xs| == 1 {
      assert xs[1..] + rest == rest;
      AgreeingStatesScanAlike(next, Initial(), rest);
    } else {
      OverlongCandidateResets(next, xs[1..], rest);
    }
  }

  /**
   * A start byte followed by 80 bytes without a CR is dropped without a
   * frame, and scanning then goes on exactly as if the read had begun
   * after it.
   */
  lemma OversizedCandidateIsDropped(start: u8, xs: seq<u8>, rest: seq<u8>)
    requires IsStart(start) && |xs| == MaxLength - 2 && NoCR(xs)
    ensures SameFrame(Scan([start] + xs + rest), Scan(rest))
  {
    var read := [start] + xs + rest;
    assert read[0] == start && read[1..] == xs + rest;
    OverlongCandidateResets(Step(Initial(), start), xs, rest);
  }

  /**
   * After a CR, any byte other than LF discards the candidate and is itself
   * consumed: even a start byte there does not begin a new frame.
   */
  lemma CarriageReturnWithoutLineFeed(st: ScanState, b: u8, rest: seq<u8>)
    requires WellFormed(st) && st.status == Terminated && b != LF
    ensures ScanFrom(st, [b] + rest) == ScanFrom(ScanState(Idle, 0, st.sentence[st.length := b]), rest)
  {
    assert ([b] + rest)[1..] == rest;
  }

  /** `$`, CR, `$`, `A`, CR, LF: the second `$` is swallowed by the broken terminator, so nothing is returned. */
  lemma SwallowedStartByteExample()
    ensures Scan([Dollar, CR, Dollar, 0x41, CR, LF]) == None
  {
    var read := [Dollar, CR, Dollar, 0x41, CR, LF];
    var s1 := Step(Initial(), Dollar);
    var s2 := Step(s1, CR);
    var s3 := Step(s2, Dollar);
    assert s3.status == Idle;
    assert read[1..][1..][1..] == [0x41, CR, LF];
    assert Scan(read) == ScanFrom(s1, read[1..]) == ScanFrom(s2, read[1..][1..])
      == ScanFrom(s3, [0x41, CR, LF]);
    IdleWithoutStartFindsNothing(s3, [0x41, CR, LF]);
  }

  // ---------------------------------------------------------------------
  // A well-formed frame is found

  /** `s` with the bytes from index `at` on replaced by `w`. */
  function Overwrite(s: Buffer, at: nat, w: seq<u8>): (r: Buffer)
    requires at + |w| <= |s|
    ensures forall k :: 0 <= k < |s| ==> r[k] == if at <= k < at + |w| then w[k - at] else s[k]
  {
    s[..at] + w + s[at + |w|..]
  }

  /** One byte of the loop, before completion. */
  lemma ScanFromCons(st: ScanState, b: u8, rest: seq<u8>)
    requires WellFormed(st) && st.status != Completed
    ensures ScanFrom(st, [b] + rest) == ScanFrom(Step(st, b), rest)
  {
    assert ([b] + rest)[1..] == rest;
  }

  lemma {:induction false} StartedCopiesBytes(st: ScanState, xs: seq<u8>, rest: seq<u8>)
    requires WellFormed(st) && st.status == Started
    requires NoCR(xs) && st.length + |xs| <= MaxLength - 2
    ensures ScanFrom(st, xs + rest)
      == ScanFrom(ScanState(Started, st.length + |xs|, Overwrite(st.sentence, st.length, xs)), rest)
    decreases |xs|
  {
    if xs == [] {
      assert xs + rest == rest;
      assert Overwrite(st.sentence, st.length, xs) == st.sentence;
    } else {
      var next := ScanState(Started, st.length + 1, st.sentence[st.length := xs[0]]);
      assert Step(st, xs[0]) == next;
      assert xs + rest == [xs[0]] + (xs[1..] + rest);
      ScanFromCons(st, xs[0], xs[1..] + rest);
      StartedCopiesBytes(next, xs[1..], rest);
      assert Overwrite(next.sentence, next.length, xs[1..]) == Overwrite(st.sentence, st.length, xs);
    }
  }

  /** The buffer after a candidate's start byte, the bytes after it and then `tail` were written. */
  lemma CandidateBuffer(s: Buffer, start: u8, xs: seq<u8>, tail: seq<u8>)
    requires 1 + |xs| + |tail| <= |s|
    ensures Overwrite(Overwrite(s[0 := start], 1, xs), 1 + |xs|, tail) == Overwrite(s, 0, [start] + xs + tail)
  {
    var x, y := Overwrite(Overwrite(s[0 := start], 1, xs), 1 + |xs|, tail), Overwrite(s, 0, [start] + xs + tail);
    forall k | 0 <= k < |s|
      ensures x[k] == y[k]
    {
    }
  }

  lemma ReadAssoc(a: seq<u8>, b: seq<u8>, c: seq<u8>)
    ensures a + b + c == a + (b + c)
  {
  }

  /** Two bytes written one after the other at `at` and `at + 1`. */
  lemma OverwriteTwo(s: Buffer, at: nat, x: u8, y: u8)
    requires at + 2 <= |s|
    ensures s[at := x][at + 1 := y] == Overwrite(s, at, [x, y])
  {
  }

  /** CR LF after a started candidate completes it, and the frame is returned. */
  lemma TerminatorCompletes(st: ScanState, rest: seq<u8>)
    requires WellFormed(st) && st.status == Started
    ensures ScanFrom(st, [CR, LF] + rest)
      == Some(Sentence(Overwrite(st.sentence, st.length, [CR, LF]), st.length + 2))
  {
    var s3 := ScanState(Terminated, st.length + 1, st.sentence[st.length := CR]);
    var s4 := ScanState(Completed, st.length + 2, s3.sentence[st.length + 1 := LF]);
    assert [CR, LF] + rest == [CR] + ([LF] + rest);
    ScanFromCons(st, CR, [LF] + rest);
    ScanFromCons(s3, LF, rest);
    OverwriteTwo(st.sentence, st.length, CR, LF);
  }

  /** CR and then a byte other than LF after a started candidate drop it; the buffer keeps both bytes. */
  lemma TerminatorBreaks(st: ScanState, b: u8, rest: seq<u8>)
    requires WellFormed(st) && st.status == Started && b != LF
    ensures ScanFrom(st, [CR, b] + rest)
      == ScanFrom(ScanState(Idle, 0, Overwrite(st.sentence, st.length, [CR, b])), rest)
  {
    var s3 := ScanState(Terminated, st.length + 1, st.sentence[st.length := CR]);
    var s4 := ScanState(Idle, 0, s3.sentence[st.length + 1 := b]);
    assert [CR, b] + rest == [CR] + ([b] + rest);
    ScanFromCons(st, CR, [b] + rest);
    ScanFromCons(s3, b, rest);
    OverwriteTwo(st.sentence, st.length, CR, b);
  }

  /** A start byte and then bytes without CR, read while idle, leave a started candidate holding them. */
  lemma IdleStartsCandidate(st: ScanState, start: u8, xs: seq<u8>, rest: seq<u8>)
    requires WellFormed(st) && st.status == Idle
    requires IsStart(start) && NoCR(xs) && |xs| <= MaxLength - 3
    ensures ScanFrom(st, [start] + xs + rest)
      == ScanFrom(ScanState(Started, 1 + |xs|, Overwrite(st.sentence[0 := start], 1, xs)), rest)
  {
    var s1 := ScanState(Started, 1, st.sentence[0 := start]);
    assert [start] + xs + rest == [start] + (xs + rest);
    ScanFromCons(st, start, xs + rest);
    StartedCopiesBytes(s1, xs, rest);
  }

  /**
   * A start byte, bytes without CR and then CR LF, read while the scanner is
   * idle, come back as exactly that frame, whatever follows them; the buffer
   * past the frame keeps what was in it.
   */
  lemma IdleFindsFrame(st: ScanState, start: u8, xs: seq<u8>, rest: seq<u8>)
    requires WellFormed(st) && st.status == Idle
    requires IsStart(start) && NoCR(xs) && |xs| <= MaxLength - 3
    ensures ScanFrom(st, [start] + xs + [CR, LF] + rest)
      == Some(Sentence(Overwrite(st.sentence, 0, [start] + xs + [CR, LF]), |xs| + 3))
  {
    var s2 := ScanState(Started, 1 + |xs|, Overwrite(st.sentence[0 := start], 1, xs));
    ReadAssoc([start] + xs, [CR, LF], rest);
    IdleStartsCandidate(st, start, xs, [CR, LF] + rest);
    TerminatorCompletes(s2, rest);
    CandidateBuffer(st.sentence, start, xs, [CR, LF]);
  }

  /** Bytes other than `$` and `!`, read while idle, are skipped without touching the buffer. */
  lemma {:induction false} IdleSkipsNoise(st: ScanState, noise: seq<u8>, rest: seq<u8>)
    requires WellFormed(st) && st.status == Idle
    requires forall i :: 0 <= i < |noise| ==> !IsStart(noise[i])
    ensures ScanFrom(st, noise + rest) == ScanFrom(st, rest)
    decreases |noise|
  {
    if noise == [] {
      assert noise + rest == rest;
    } else {
      assert noise + rest == [noise[0]] + (noise[1..] + rest);
      ScanFromCons(st, noise[0], noise[1..] + rest);
      IdleSkipsNoise(st, noise[1..], rest);
    }
  }

  /** Noise without a start byte, then a well-formed frame: the frame is returned, over a buffer of spaces. */
  lemma NoiseThenFrame(noise: seq<u8>, start: u8, xs: seq<u8>, rest: seq<u8>)
    requires forall i :: 0 <= i < |noise| ==> !IsStart(noise[i])
    requires IsStart(start) && NoCR(xs) && |xs| <= MaxLength - 3
    ensures Scan(noise + [start] + xs + [CR, LF] + rest)
      == Some(Sentence(Overwrite(Blank(), 0, [start] + xs + [CR, LF]), |xs| + 3))
  {
    var frame := [start] + xs + [CR, LF] + rest;
    assert noise + [start] + xs + [CR, LF] + rest == noise + frame;
    IdleSkipsNoise(Initial(), noise, frame);
    IdleFindsFrame(Initial(), start, xs, rest);
  }

  /** A read that begins with a well-formed frame returns that frame, over a buffer of spaces. */
  lemma ReadStartingWithFrame(start: u8, xs: seq<u8>, rest: seq<u8>)
    requires IsStart(start) && NoCR(xs) && |xs| <= MaxLength - 3
    ensures Scan([start] + xs + [CR, LF] + rest)
      == Some(Sentence(Overwrite(Blank(), 0, [start] + xs + [CR, LF]), |xs| + 3))
  {
    IdleFindsFrame(Initial(), start, xs, rest);
  }

  /**
   * A candidate whose CR is followed by a byte other than LF is dropped
   * without a frame; the scanner is idle again, and the dropped bytes stay
   * in the buffer.
   */
  lemma IdleDropsBrokenCandidate(st: ScanState, start: u8, xs: seq<u8>, b: u8, rest: seq<u8>)
    requires WellFormed(st) && st.status == Idle
    requires IsStart(start) && NoCR(xs) && |xs| <= MaxLength - 3 && b != LF
    ensures ScanFrom(st, [start] + xs + [CR, b] + rest)
      == ScanFrom(ScanState(Idle, 0, Overwrite(st.sentence, 0, [start] + xs + [CR, b])), rest)
  {
    var s2 := ScanState(Started, 1 + |xs|, Overwrite(st.sentence[0 := start], 1, xs));
    ReadAssoc([start] + xs, [CR, b], rest);
    IdleStartsCandidate(st, start, xs, [CR, b] + rest);
    TerminatorBreaks(s2, b, rest);
    CandidateBuffer(st.sentence, start, xs, [CR, b]);
  }

  /** ... and scanning goes on as if the read had begun after the byte that broke it. */
  lemma BrokenCandidateIsDropped(start: u8, xs: seq<u8>, b: u8, rest: seq<u8>)
    requires IsStart(start) && NoCR(xs) && |xs| <= MaxLength - 3 && b != LF
    ensures SameFrame(Scan([start] + xs + [CR, b] + rest), Scan(rest))
  {
    IdleDropsBrokenCandidate(Initial(), start, xs, b, rest);
    AgreeingStatesScanAlike(ScanState(Idle, 0, Overwrite(Blank(), 0, [start] + xs + [CR, b])), Initial(), rest);
  }
}
