/**
 The log file as a stream of frames: a 4-byte length, then one encoded record.
 What the reader gets back from any bytes, and from any cut of a written log.
 */
module WalStream {
  import opened Bytes
  import opened WalRecord

  // The reader's bound on one record.
  const RECORD_LIMIT: nat := 1024 * 1024

  /** What `write_record_to_file` puts on disk. */
  function Frame(r: WALRecord): bytes {
    FrameOf(Encode(r))
  }

  function Frames(rs: seq<WALRecord>): bytes {
    if rs == [] then [] else Frame(rs[0]) + Frames(rs[1..])
  }

  /** The records the reader can give back: true lengths, at most RECORD_LIMIT bytes. */
  predicate Fits(r: WALRecord) {
    r.LengthsTrue() && r.Size() <= RECORD_LIMIT
  }

  ghost predicate AllFit(rs: seq<WALRecord>) {
    forall r | r in rs :: Fits(r)
  }

  ghost predicate AllTrue(rs: seq<WALRecord>) {
    forall r: WALRecord | r in rs :: r.LengthsTrue()
  }

  lemma FitsIff(r: WALRecord)
    ensures Fits(r) <==> r.keyLength == |r.key| && r.valueLength == |r.value| && 25 + |r.key| + |r.value| <= 1048576
  {
  }

  /** One turn of the reading loop: the record at the front and the bytes consumed, or stop. */
  function ReadFrame(file: bytes): (got: Option<(WALRecord, nat)>)
    ensures got.Some? ==> 4 <= got.value.1 <= |file|
  {
    if |file| < 4 then None
    else
      var size := U32At(file, 0);
      if size > RECORD_LIMIT || |file| < 4 + size then None
      else
        match Decode(file[4..4 + size])
        case Failed(_) => None
        case Decoded(r) => Some((r, 4 + size))
  }

  /** Everything the reader returns for a file with these bytes. */
  function ReadAll(file: bytes): seq<WALRecord>
    decreases |file|
  {
    match ReadFrame(file)
    case None => []
    case Some((r, size)) => [r] + ReadAll(file[size..])
  }

  /** The bytes the reader consumed before it stopped. */
  function Consumed(file: bytes): (n: nat)
    ensures n <= |file|
    decreases |file|
  {
    match ReadFrame(file)
    case None => 0
    case Some((r, size)) => size + Consumed(file[size..])
  }

  // ---------------------------------------------------------------- framing algebra

  lemma {:induction false} FramesConcat(a: seq<WALRecord>, b: seq<WALRecord>)
    ensures Frames(a + b) == Frames(a) + Frames(b)
  {
    if a == [] {
      assert a + b == b;
    } else {
      FramesConcat(a[1..], b);
      assert (a + b)[1..] == a[1..] + b;
      Associative(Frame(a[0]), Frames(a[1..]), Frames(b));
    }
  }

  lemma FramesOne(r: WALRecord)
    ensures Frames([r]) == Frame(r)
  {
    assert Frame(r) + Frames([]) == Frame(r);
  }

  lemma FramesSnoc(a: seq<WALRecord>, r: WALRecord)
    ensures Frames(a + [r]) == Frames(a) + Frame(r)
  {
    FramesConcat(a, [r]);
    FramesOne(r);
  }

  // ---------------------------------------------------------------- one frame

  /** A body that decodes and is within the limit is read whole, whatever follows its frame. */
  lemma ReadBody(r: WALRecord, body: bytes, rest: bytes)
    requires Decode(body) == Decoded(r) && |body| <= RECORD_LIMIT
    ensures ReadFrame(FrameOf(body) + rest) == Some((r, 4 + |body|))
    ensures (FrameOf(body) + rest)[4 + |body|..] == rest
  {
    FrameParts(body, rest);
  }

  lemma ReadFittingFrame(r: WALRecord, rest: bytes)
    requires Fits(r)
    ensures ReadFrame(Frame(r) + rest) == Some((r, |Frame(r)|))
    ensures (Frame(r) + rest)[|Frame(r)|..] == rest
  {
    CodecIsFaithfulIff(r);
    ReadBody(r, Encode(r), rest);
  }

  lemma ReadFrontRecord(r: WALRecord, rest: bytes)
    requires Fits(r)
    ensures ReadAll(Frame(r) + rest) == [r] + ReadAll(rest)
  {
    ReadFittingFrame(r, rest);
  }

  /** The reader stops at a frame that does not fit, even when its length field wrapped around. */
  lemma StopAtOversizedFrame(r: WALRecord, rest: bytes)
    requires r.LengthsTrue() && !Fits(r)
    ensures ReadFrame(Frame(r) + rest) == None
  {
    var file := Frame(r) + rest;
    var size := ToU32(|Encode(r)|);
    assert file[0..4] == LE(size, 4);
    U32AtOfLE(file, 0, size);
    if size <= RECORD_LIMIT && |file| >= 4 + size {
      assert size < |Encode(r)|;
      assert file[4..4 + size] == Encode(r)[..size];
      CutRecordFails(r, Encode(r)[..size]);
    }
  }

  /** A proper part of a frame reads as nothing. */
  lemma StopAtTornFrame(r: WALRecord, part: bytes)
    requires r.LengthsTrue() && part < Frame(r)
    ensures ReadFrame(part) == None
  {
    if |part| >= 4 {
      var size := ToU32(|Encode(r)|);
      assert part[0..4] == Frame(r)[0..4] == LE(size, 4);
      U32AtOfLE(part, 0, size);
      if size <= RECORD_LIMIT && |part| >= 4 + size {
        assert part[4..4 + size] == Frame(r)[4..4 + size] == Encode(r)[..size];
        CutRecordFails(r, Encode(r)[..size]);
      }
    }
  }

  // ---------------------------------------------------------------- whole logs

  /** Fitting frames are read off the front; reading then goes on with the rest. */
  lemma {:induction false} ReadFittingFrames(rs: seq<WALRecord>, rest: bytes)
    requires AllFit(rs)
    ensures ReadAll(Frames(rs) + rest) == rs + ReadAll(rest)
  {
    if rs == [] {
      assert Frames(rs) + rest == rest;
    } else {
      var first, more := rs[0], rs[1..];
      calc {
        ReadAll(Frames(rs) + rest);
        { Associative(Frame(first), Frames(more), rest); }
        ReadAll(Frame(first) + (Frames(more) + rest));
        { ReadFrontRecord(first, Frames(more) + rest); }
        [first] + ReadAll(Frames(more) + rest);
        { ReadFittingFrames(more, rest); }
        [first] + (more + ReadAll(rest));
        { Associative([first], more, ReadAll(rest)); }
        rs + ReadAll(rest);
      }
    }
  }

  /** Whatever the bytes, each record the reader returns fits. */
  lemma {:induction false} ReadRecordsFit(file: bytes)
    ensures AllFit(ReadAll(file))
    decreases |file|
  {
    match ReadFrame(file)
    case None =>
    case Some((r, size)) =>
      EncodeOfDecode(file[4..size]);
      ReadRecordsFit(file[size..]);
  }

  /** Reading back a log returns exactly what was written, if and only if every record fits. */
  lemma ReadBackIff(rs: seq<WALRecord>)
    ensures ReadAll(Frames(rs)) == rs <==> AllFit(rs)
  {
    if AllFit(rs) {
      ReadFittingFrames(rs, []);
      assert Frames(rs) + [] == Frames(rs);
    }
    ReadRecordsFit(Frames(rs));
  }

  /** Two logs of fitting records with the same bytes hold the same records. */
  lemma FramesInjective(a: seq<WALRecord>, b: seq<WALRecord>)
    requires AllFit(a) && AllFit(b) && Frames(a) == Frames(b)
    ensures a == b
  {
    ReadBackIff(a);
    ReadBackIff(b);
  }

  /** Appending one frame to a readable log appends that one record, if and only if it fits. */
  lemma AppendOneFrameIff(rs: seq<WALRecord>, r: WALRecord)
    requires AllFit(rs)
    ensures ReadAll(Frames(rs) + Frame(r)) == ReadAll(Frames(rs)) + [r] <==> Fits(r)
  {
    ReadBackIff(rs);
    FramesSnoc(rs, r);
    ReadBackIff(rs + [r]);
    assert r in rs + [r];
  }

  /** The bodies of the frames the reader consumed. */
  function Bodies(file: bytes): seq<bytes>
    decreases |file|
  {
    match ReadFrame(file)
    case None => []
    case Some((_, size)) => [file[4..size]] + Bodies(file[size..])
  }

  /** Each body behind its own length. */
  function Framed(bodies: seq<bytes>): bytes {
    if bodies == [] then [] else FrameOf(bodies[0]) + Framed(bodies[1..])
  }

  /** One frame that was read, taken apart. */
  lemma ReadFrameParts(file: bytes)
    requires ReadFrame(file).Some?
    ensures var (r, size) := ReadFrame(file).value;
            && FrameOf(file[4..size]) == file[..size]
            && Encode(r) <= file[4..size]
            && |file[4..size]| <= RECORD_LIMIT
  {
    var (r, size) := ReadFrame(file).value;
    LEOfFromLE(file[0..4]);
    EncodeOfDecode(file[4..size]);
  }

  lemma FramedCons(body: bytes, more: seq<bytes>)
    ensures Framed([body] + more) == FrameOf(body) + Framed(more)
  {
    assert ([body] + more)[1..] == more;
  }

  /** On arbitrary bytes the consumed frames are a prefix of the input. */
  lemma {:induction false} ConsumedIsFramedPrefix(file: bytes)
    ensures file[..Consumed(file)] == Framed(Bodies(file))
    decreases |file|
  {
    var got := ReadFrame(file);
    if got.Some? {
      var size := got.value.1;
      var rest := file[size..];
      calc {
        Framed(Bodies(file));
        { FramedCons(file[4..size], Bodies(rest)); }
        FrameOf(file[4..size]) + Framed(Bodies(rest));
        { ReadFrameParts(file); ConsumedIsFramedPrefix(rest); }
        file[..size] + rest[..Consumed(rest)];
        { SplitAfter(file, size, Consumed(rest)); }
        file[..Consumed(file)];
      }
    }
  }

  lemma {:induction false} OneBodyPerRecord(file: bytes)
    ensures |Bodies(file)| == |ReadAll(file)|
    decreases |file|
  {
    var got := ReadFrame(file);
    if got.Some? {
      OneBodyPerRecord(file[got.value.1..]);
    }
  }

  lemma {:induction false} NothingReadsBehind(file: bytes)
    ensures ReadFrame(file[Consumed(file)..]) == None
    decreases |file|
  {
    var got := ReadFrame(file);
    if got == None {
      assert file[0..] == file;
    } else {
      var size := got.value.1;
      var more := Consumed(file[size..]);
      NothingReadsBehind(file[size..]);
      DropTwice(file, size, more);
      assert Consumed(file) == size + more;
    }
  }

  /** The reader returns one record for each consumed frame, and stops at what is left. */
  lemma ReaderStopsWhereNothingReads(file: bytes)
    ensures |Bodies(file)| == |ReadAll(file)|
    ensures ReadFrame(file[Consumed(file)..]) == None
  {
    OneBodyPerRecord(file);
    NothingReadsBehind(file);
  }

  /** Each returned record re-encodes to a prefix of its own frame body, of at most RECORD_LIMIT bytes. */
  lemma {:induction false} RecordsArePrefixesOfBodies(file: bytes, i: nat)
    requires i < |ReadAll(file)|
    ensures i < |Bodies(file)|
    ensures Encode(ReadAll(file)[i]) <= Bodies(file)[i] && |Bodies(file)[i]| <= RECORD_LIMIT
    decreases |file|
  {
    var (_, size) := ReadFrame(file).value;
    if i == 0 {
      ReadFrameParts(file);
    } else {
      RecordsArePrefixesOfBodies(file[size..], i - 1);
    }
  }

  // ---------------------------------------------------------------- crash points

  /** How many whole frames lie within the first `cut` bytes. */
  function WholeFrames(rs: seq<WALRecord>, cut: nat): (j: nat)
    ensures j <= |rs|
  {
    if rs == [] || cut < |Frame(rs[0])| then 0
    else 1 + WholeFrames(rs[1..], cut - |Frame(rs[0])|)
  }

  /** The index of the first record that does not fit, or the length. */
  function FirstOversized(rs: seq<WALRecord>): (j: nat)
    ensures j <= |rs|
    ensures AllFit(rs[..j])
    ensures j < |rs| ==> !Fits(rs[j])
  {
    if rs == [] || !Fits(rs[0]) then 0
    else
      var j := 1 + FirstOversized(rs[1..]);
      assert rs[..j] == [rs[0]] + rs[1..][..j - 1];
      j
  }

  /** `WholeFrames` is the greatest number of leading frames that lies within the cut. */
  lemma {:induction false} WholeFramesIsGreatest(rs: seq<WALRecord>, cut: nat, j: nat)
    requires j <= |rs|
    ensures j <= WholeFrames(rs, cut) <==> |Frames(rs[..j])| <= cut
  {
    if j > 0 {
      assert rs[..j][1..] == rs[1..][..j - 1];
      if cut >= |Frame(rs[0])| {
        WholeFramesIsGreatest(rs[1..], cut - |Frame(rs[0])|, j - 1);
      }
    }
  }

  /** More surviving bytes never mean fewer surviving records. */
  lemma {:induction false} WholeFramesMonotone(rs: seq<WALRecord>, cut: nat, later: nat)
    requires cut <= later
    ensures WholeFrames(rs, cut) <= WholeFrames(rs, later)
  {
    var j := WholeFrames(rs, cut);
    WholeFramesIsGreatest(rs, cut, j);
    WholeFramesIsGreatest(rs, later, j);
  }

  /** The number of records read back from a log cut at this byte. */
  function Readable(rs: seq<WALRecord>, cut: nat): (j: nat)
    ensures j <= |rs|
  {
    Min(WholeFrames(rs, cut), FirstOversized(rs))
  }

  lemma ReadableStep(rs: seq<WALRecord>, cut: nat)
    requires rs != []
    ensures Readable(rs, cut)
         == if cut < |Frame(rs[0])| || !Fits(rs[0]) then 0 else 1 + Readable(rs[1..], cut - |Frame(rs[0])|)
  {
  }

  /** A cut inside the first frame leaves nothing to read. */
  lemma CutInFirstFrame(first: WALRecord, more: bytes, cut: nat)
    requires first.LengthsTrue() && cut < |Frame(first)|
    ensures ReadAll((Frame(first) + more)[..cut]) == []
  {
    CutConcat(Frame(first), more, cut);
    StopAtTornFrame(first, Frame(first)[..cut]);
  }

  /** A cut behind the first frame leaves that record, if it fits, and the cut of the rest. */
  lemma CutBehindFirstFrame(first: WALRecord, more: bytes, cut: nat)
    requires first.LengthsTrue() && |Frame(first)| <= cut <= |Frame(first)| + |more|
    ensures ReadAll((Frame(first) + more)[..cut])
         == if Fits(first) then [first] + ReadAll(more[..cut - |Frame(first)|]) else []
  {
    CutConcat(Frame(first), more, cut);
    if Fits(first) {
      ReadFrontRecord(first, more[..cut - |Frame(first)|]);
    } else {
      StopAtOversizedFrame(first, more[..cut - |Frame(first)|]);
    }
  }

  /**
   The log cut at any byte reads back as its first j records: the whole frames within the cut,
   stopping early at the first record over the reader's limit.
   */
  lemma {:induction false} ReadCutLog(rs: seq<WALRecord>, cut: nat)
    requires AllTrue(rs) && cut <= |Frames(rs)|
    ensures ReadAll(Frames(rs)[..cut]) == rs[..Readable(rs, cut)]
  {
    if rs != [] {
      ReadableStep(rs, cut);
      if cut < |Frame(rs[0])| {
        CutInFirstFrame(rs[0], Frames(rs[1..]), cut);
      } else {
        CutBehindFirstFrame(rs[0], Frames(rs[1..]), cut);
        if Fits(rs[0]) {
          ReadCutLog(rs[1..], cut - |Frame(rs[0])|);
          TakeMore(rs, Readable(rs[1..], cut - |Frame(rs[0])|));
        }
      }
    }
  }

  lemma TakeMore<T>(s: seq<T>, j: nat)
    requires s != [] && j < |s|
    ensures s[..1 + j] == [s[0]] + s[1..][..j]
  {
  }

  lemma TakeCons(r: WALRecord, rs: seq<WALRecord>, j: nat)
    requires j <= |rs|
    ensures ([r] + rs)[..1 + j] == [r] + rs[..j]
  {
  }
}
