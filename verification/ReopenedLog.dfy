/**
 Appending to a log file that `read_all_records` reopened behind a torn write. The appends are
 acknowledged; whether their records are read back depends on the bytes the torn write left.
 */
module ReopenedLog {
  import opened Bytes
  import opened WalRecord
  import opened WalStream
  import opened LogFile

  /** A record to append, and the clock at that moment. */
  datatype Entry = Entry(record: WALRecord, now: uint64)

  function StampedAll(later: seq<Entry>): (rs: seq<WALRecord>)
    ensures |rs| == |later|
    decreases |later|
  {
    if later == [] then [] else [Stamped(later[0].record, later[0].now)] + StampedAll(later[1..])
  }

  function AppendAll(w: Wal, later: seq<Entry>): Wal
    decreases |later|
  {
    if later == [] then w else AppendAll(Append(w, later[0].record, later[0].now, Wrote).0, later[1..])
  }

  /** The log once it has been reopened and some more records have been written whole. */
  function Reappended(w: Wal, later: seq<Entry>): Wal {
    AppendAll(Reopen(w, true, true), later)
  }

  lemma {:induction false} AppendedAll(w: Wal, later: seq<Entry>)
    requires w.good
    ensures var w' := AppendAll(w, later);
            w'.recs == w.recs + StampedAll(later) && w'.file == w.file + Frames(StampedAll(later))
    decreases |later|
  {
    if later != [] {
      var first, more := Stamped(later[0].record, later[0].now), StampedAll(later[1..]);
      AppendedAll(Append(w, later[0].record, later[0].now, Wrote).0, later[1..]);
      Associative(w.recs, [first], more);
      assert ([first] + more)[1..] == more;
      Associative(w.file, Frame(first), Frames(more));
    }
  }

  /** The appends are acknowledged, and their frames stand behind the torn bytes. */
  lemma AppendsAreAcknowledged(w: Wal, later: seq<Entry>)
    requires Sound(w) && AllFit(w.recs)
    ensures var rs := StampedAll(later);
            && Reappended(w, later).recs == w.recs + rs
            && ReadAll(Reappended(w, later).file) == w.recs + ReadAll(TornBytes(w.tear) + Frames(rs))
  {
    var torn, last := TornBytes(w.tear), Frames(StampedAll(later));
    AppendedAll(Reopen(w, true, true), later);
    Associative(Frames(w.recs), torn, last);
    ReadFittingFrames(w.recs, torn + last);
  }

  lemma OneEntry(r: WALRecord, now: uint64)
    ensures StampedAll([Entry(r, now)]) == [Stamped(r, now)]
    ensures Frames([Stamped(r, now)]) == Frame(Stamped(r, now))
  {
    FramesOne(Stamped(r, now));
  }

  /**
   Read from the front of `stream`, each length that is found takes in the next record's own
   encoding, at the front of what it calls a body.
   */
  predicate FallIntoPlace(stream: bytes, rs: seq<WALRecord>)
    decreases |rs|
  {
    rs == [] ||
    (|stream| >= 4 &&
     var size := U32At(stream, 0);
     && size <= RECORD_LIMIT && 4 + size <= |stream| && Encode(rs[0]) <= stream[4..4 + size]
     && FallIntoPlace(stream[4 + size..], rs[1..]))
  }

  /** What is read first is `r` exactly when the first length takes in its encoding. */
  lemma FirstReadIff(stream: bytes, r: WALRecord)
    requires Fits(r) && |stream| >= 4
    ensures var size := U32At(stream, 0);
            (exists n :: ReadFrame(stream) == Some((r, n)))
            <==> size <= RECORD_LIMIT && 4 + size <= |stream| && Encode(r) <= stream[4..4 + size]
    ensures forall n | ReadFrame(stream) == Some((r, n)) :: n == 4 + U32At(stream, 0)
  {
    var size := U32At(stream, 0);
    if size <= RECORD_LIMIT && 4 + size <= |stream| {
      DecodesAsIff(stream[4..4 + size], r);
      if Encode(r) <= stream[4..4 + size] {
        assert ReadFrame(stream) == Some((r, 4 + size));
      }
    }
  }

  lemma {:induction false} ReadFirstIff(stream: bytes, rs: seq<WALRecord>)
    requires AllFit(rs)
    ensures rs <= ReadAll(stream) <==> FallIntoPlace(stream, rs)
    decreases |rs|
  {
    if rs != [] && |stream| >= 4 {
      FirstReadIff(stream, rs[0]);
      var got := ReadFrame(stream);
      if got.Some? && got.value.0 == rs[0] {
        assert got == Some((rs[0], got.value.1));
        ReadFirstIff(stream[got.value.1..], rs[1..]);
        HeadAndTail(rs, rs[0], ReadAll(stream[got.value.1..]));
      }
    }
  }

  lemma HeadAndTail<T>(a: seq<T>, x: T, more: seq<T>)
    requires a != [] && a[0] == x
    ensures a <= [x] + more <==> a[1..] <= more
  {
    assert a == [x] + a[1..];
    SamePrefix([x], a[1..], more);
  }

  lemma SamePrefix<T>(a: seq<T>, b: seq<T>, c: seq<T>)
    ensures a + b <= a + c <==> b <= c
  {
    if b <= c {
      Associative(a, b, c[|b|..]);
      assert a + c == (a + b) + c[|b|..];
    }
    if a + b <= a + c {
      forall i | 0 <= i < |b|
        ensures b[i] == c[i]
      {
        assert (a + b)[|a| + i] == (a + c)[|a| + i];
      }
    }
  }

  /**
   Of the acknowledged records the first `k` are read back, in their place, if and only if they fall
   into place: behind the torn bytes, whatever these are, and in front of the frames that follow.
   */
  lemma LaterRecordsAreReadIff(w: Wal, later: seq<Entry>, k: nat)
    requires Sound(w) && AllFit(w.recs) && k <= |later| && AllFit(StampedAll(later)[..k])
    ensures var rs := StampedAll(later);
            w.recs + rs[..k] <= ReadAll(Reappended(w, later).file)
            <==> FallIntoPlace(TornBytes(w.tear) + Frames(rs), rs[..k])
  {
    var rs := StampedAll(later);
    var stream := TornBytes(w.tear) + Frames(rs);
    AppendsAreAcknowledged(w, later);
    ReadFirstIff(stream, rs[..k]);
    SamePrefix(w.recs, rs[..k], ReadAll(stream));
  }

  /** One record appended: whether it is read back. */
  lemma NextRecordIsReadIff(w: Wal, r: WALRecord, now: uint64)
    requires Sound(w) && AllFit(w.recs) && Fits(r)
    ensures w.recs + [Stamped(r, now)] <= ReadAll(Reappended(w, [Entry(r, now)]).file)
            <==> FallIntoPlace(TornBytes(w.tear) + Frame(Stamped(r, now)), [Stamped(r, now)])
  {
    OneEntry(r, now);
    assert StampedAll([Entry(r, now)])[..1] == [Stamped(r, now)];
    LaterRecordsAreReadIff(w, [Entry(r, now)], 1);
  }

  // ---------------------------------------------------------------- which tears strand it

  /** With nothing torn the records are read back, and nothing else behind them. */
  lemma NothingTornIsReadBack(w: Wal, later: seq<Entry>)
    requires Sound(w) && AllFit(w.recs) && AllFit(StampedAll(later)) && TornBytes(w.tear) == []
    ensures ReadAll(Reappended(w, later).file) == w.recs + StampedAll(later)
  {
    var rs := StampedAll(later);
    AppendsAreAcknowledged(w, later);
    assert [] + Frames(rs) == Frames(rs);
    ReadBackIff(rs);
  }

  /** Where at least its length got out, the torn frame keeps that length. */
  lemma TornLength(w: Wal, more: bytes)
    requires Sound(w) && |TornBytes(w.tear)| >= 4
    ensures U32At(TornBytes(w.tear) + more, 0) == ToU32(|Encode(w.tear.record)|)
  {
    var size := ToU32(|Encode(w.tear.record)|);
    assert (TornBytes(w.tear) + more)[0..4] == LE(size, 4);
    U32AtOfLE(TornBytes(w.tear) + more, 0, size);
  }

  /** A torn frame that still claims more than the file holds hides all that was appended. */
  lemma UnfinishedFrameStrandsLaterRecords(w: Wal, later: seq<Entry>)
    requires Sound(w) && AllFit(w.recs)
    requires |TornBytes(w.tear)| >= 4 && Fits(w.tear.record)
    requires |Frame(w.tear.record)| > |TornBytes(w.tear)| + |Frames(StampedAll(later))|
    ensures ReadAll(Reappended(w, later).file) == w.recs
  {
    AppendsAreAcknowledged(w, later);
    TornLength(w, Frames(StampedAll(later)));
  }

  /** A torn record that was over the reader's limit hides whatever follows, as it would have whole. */
  lemma OversizedTearStrandsLaterRecords(w: Wal, later: seq<Entry>)
    requires Sound(w) && AllFit(w.recs)
    requires |TornBytes(w.tear)| >= 4 && RECORD_LIMIT < |Encode(w.tear.record)| < TWO_32
    ensures ReadAll(Reappended(w, later).file) == w.recs
  {
    AppendsAreAcknowledged(w, later);
    TornLength(w, Frames(StampedAll(later)));
  }

  /**
   One stray byte multiplies the first length by 256. That hides all that was appended, unless the
   first record is short and enough follows it; with nothing behind it, it always does.
   */
  lemma OneStrayByteStrandsLaterRecords(w: Wal, later: seq<Entry>)
    requires Sound(w) && AllFit(w.recs) && |TornBytes(w.tear)| == 1
    requires later != [] && Fits(StampedAll(later)[0])
    requires 256 * |Encode(StampedAll(later)[0])| > Min(RECORD_LIMIT, |Frames(StampedAll(later))|)
    ensures ReadAll(Reappended(w, later).file) == w.recs
  {
    var torn, rs := TornBytes(w.tear), StampedAll(later);
    AppendsAreAcknowledged(w, later);
    StrayByteHidesFrame(torn[0], rs[0], Frames(rs[1..]));
    assert torn == [torn[0]];
  }

  lemma OneStrayByteStrandsNextRecord(w: Wal, r: WALRecord, now: uint64)
    requires Sound(w) && AllFit(w.recs) && |TornBytes(w.tear)| == 1
    requires Fits(r)
    ensures ReadAll(Reappended(w, [Entry(r, now)]).file) == w.recs
  {
    OneEntry(r, now);
    OneStrayByteStrandsLaterRecords(w, [Entry(r, now)]);
  }

  lemma StrayByteHidesFrame(stray: byte, r: WALRecord, rest: bytes)
    requires Fits(r) && 256 * |Encode(r)| > Min(RECORD_LIMIT, |Frame(r) + rest|)
    ensures ReadFrame([stray] + (Frame(r) + rest)) == None
  {
    var size := |Encode(r)|;
    Pow256Widths();
    FromLEOfLE(size, 3);
    LEPrefix(size, 3);
    CutConcat([stray], Frame(r) + rest, 4);
    CutConcat(Frame(r), rest, 3);
    CutConcat(LE(size, 4), Encode(r), 3);
    assert (Frame(r) + rest)[..3] == LE(size, 3);
    FirstByte(stray, LE(size, 3));
  }

  /** The record that was refused, filled up with bytes of those that were acknowledged. */
  ghost predicate FilledUp(refused: WALRecord, read: WALRecord) {
    && read == refused.(key := read.key, value := read.value)
    && |read.key| == |refused.key| && |read.value| == |refused.value|
  }

  /**
   If the torn bytes reach past the header and the new frames together are long enough to complete
   them, the refused record comes back, with bytes of the new frames for the end of its key or value.
   */
  lemma RefusedRecordComesBackFilledUp(w: Wal, later: seq<Entry>)
    requires Sound(w) && AllFit(w.recs)
    requires |TornBytes(w.tear)| >= 4 + HEADER_SIZE && Fits(w.tear.record)
    requires |Frame(w.tear.record)| <= |TornBytes(w.tear)| + |Frames(StampedAll(later))|
    ensures var read := ReadAll(Reappended(w, later).file);
            |read| > |w.recs| && read[..|w.recs|] == w.recs && FilledUp(w.tear.record, read[|w.recs|])
  {
    var last := Frames(StampedAll(later));
    AppendsAreAcknowledged(w, later);
    TornFrameIsCompleted(w, last);
    Behind(w.recs, ReadAll(TornBytes(w.tear) + last));
  }

  lemma TornFrameIsCompleted(w: Wal, more: bytes)
    requires Sound(w) && |TornBytes(w.tear)| >= 4 + HEADER_SIZE && Fits(w.tear.record)
    requires |Frame(w.tear.record)| <= |TornBytes(w.tear)| + |more|
    ensures var found := ReadAll(TornBytes(w.tear) + more);
            found != [] && FilledUp(w.tear.record, found[0])
  {
    TornLength(w, more);
    TornHeader(w, more);
    assert Fits(w.tear.record) && |Encode(w.tear.record)| < TWO_32;
    CompletedFrame(w.tear.record, TornBytes(w.tear) + more, |Encode(w.tear.record)|);
  }

  lemma CompletedFrame(q: WALRecord, stream: bytes, size: nat)
    requires Fits(q) && size == |Encode(q)| && 4 + size <= |stream| && U32At(stream, 0) == size
    requires stream[4..4 + HEADER_SIZE] == Encode(q)[..HEADER_SIZE]
    ensures ReadAll(stream) != [] && FilledUp(q, ReadAll(stream)[0])
  {
    FrontOfBody(stream, size);
    HeaderDecides(q, stream[4..4 + size]);
    FrontRead(stream);
  }

  lemma FrontOfBody(stream: bytes, size: nat)
    requires HEADER_SIZE <= size && 4 + size <= |stream|
    ensures stream[4..4 + size][..HEADER_SIZE] == stream[4..4 + HEADER_SIZE]
  {
  }

  lemma FrontRead(stream: bytes)
    requires |stream| >= 4 && U32At(stream, 0) <= RECORD_LIMIT && 4 + U32At(stream, 0) <= |stream|
    requires Decode(stream[4..4 + U32At(stream, 0)]).Decoded?
    ensures ReadAll(stream) != [] && ReadAll(stream)[0] == Decode(stream[4..4 + U32At(stream, 0)]).record
  {
  }

  lemma Behind<T>(a: seq<T>, found: seq<T>)
    requires found != []
    ensures (a + found)[..|a|] == a && (a + found)[|a|] == found[0]
  {
  }

  lemma TornHeader(w: Wal, more: bytes)
    requires Sound(w) && |TornBytes(w.tear)| >= 4 + HEADER_SIZE
    ensures (TornBytes(w.tear) + more)[4..4 + HEADER_SIZE] == Encode(w.tear.record)[..HEADER_SIZE]
  {
    var q := w.tear.record;
    FrameParts(Encode(q), []);
    assert Frame(q) + [] == Frame(q);
    Adjacent(Frame(q), 4, 4 + HEADER_SIZE, |Frame(q)|);
  }

  /** Bytes that start with a record's header decode to a record with that header. */
  lemma HeaderDecides(q: WALRecord, body: bytes)
    requires q.LengthsTrue() && |body| == |Encode(q)| && body[..HEADER_SIZE] == Encode(q)[..HEADER_SIZE]
    ensures Decode(body).Decoded? && FilledUp(q, Decode(body).record)
  {
    var e := Encode(q);
    HeaderLayout(q, []);
    assert e + [] == e;
    assert body[0] == body[..HEADER_SIZE][0] == e[0];
    SamePart(body, e, 1, 9);
    SamePart(body, e, 9, 17);
    SamePart(body, e, 17, 21);
    SamePart(body, e, 21, 25);
  }

  lemma SamePart(a: bytes, b: bytes, i: nat, j: nat)
    requires |a| >= HEADER_SIZE && |b| >= HEADER_SIZE && a[..HEADER_SIZE] == b[..HEADER_SIZE]
    requires i <= j <= HEADER_SIZE
    ensures a[i..j] == b[i..j]
  {
    forall k | i <= k < j
      ensures a[k] == b[k]
    {
      assert a[..HEADER_SIZE][k] == b[..HEADER_SIZE][k];
    }
  }

  // ---------------------------------------------------------------- a tear that strands nothing

  /** The same record again, behind a tear one byte short: its frame's first byte completes the body. */
  function Again(r: WALRecord): bytes {
    Frame(r)[..|Frame(r)| - 1] + Frame(r)
  }

  lemma AgainParts(r: WALRecord)
    ensures var e := Encode(r);
            && Again(r)[4..4 + |e|] == e[..|e| - 1] + [Frame(r)[0]]
            && Again(r)[4 + |e|..] == Frame(r)[1..]
  {
    var e, frame := Encode(r), Frame(r);
    FrameParts(e, []);
    assert frame + [] == frame;
    assert frame[4..|frame| - 1] == e[..|e| - 1];
    assert frame == [frame[0]] + frame[1..];
  }

  /**
   A record torn one byte short and then appended again is read back if and only if its last byte
   is the low byte of its own length.
   */
  lemma OneByteShortIff(w: Wal, r: WALRecord, now: uint64)
    requires Sound(w) && AllFit(w.recs) && Fits(r) && r.timestamp != 0
    requires w.tear.Torn? && w.tear.record == r && |TornBytes(w.tear)| == |Frame(r)| - 1
    ensures w.recs + [r] <= ReadAll(Reappended(w, [Entry(r, now)]).file)
            <==> Encode(r)[|Encode(r)| - 1] == |Encode(r)| % 256
  {
    NextRecordIsReadIff(w, r, now);
    TornLength(w, Frame(r));
    AgainParts(r);
    assert FallIntoPlace(Again(r)[4 + |Encode(r)|..], []);
    var e := Encode(r);
    assert e == e[..|e| - 1] + [e[|e| - 1]];
    assert Frame(r)[0] == LE(|e|, 4)[0] == |e| % 256;
    assert TornBytes(w.tear) == Frame(r)[..|Frame(r)| - 1];
    OnlyPrefix(e, e[..|e| - 1] + [Frame(r)[0]]);
  }

  lemma OnlyPrefix(a: bytes, b: bytes)
    requires |a| == |b|
    ensures a <= b <==> a == b
    ensures a != [] && a[..|a| - 1] == b[..|b| - 1] ==> (a == b <==> a[|a| - 1] == b[|b| - 1])
  {
    if a != [] {
      assert a == a[..|a| - 1] + [a[|a| - 1]] && b == b[..|b| - 1] + [b[|b| - 1]];
    }
  }

  const TWIN: WALRecord := WALRecord(PUT, 1, 1, 0, 1, [], [26])

  const ONE_SHORT: Wal := Wal(Frame(TWIN)[..29], false, 0, 0, [], [], Torn(TWIN, 29))

  /** Torn bytes do not always hide the record: this one, of 26 bytes and ending in 26, is read back. */
  lemma TornTwinIsReadBack(now: uint64)
    ensures Sound(ONE_SHORT) && Fits(TWIN) && TornBytes(ONE_SHORT.tear) != []
    ensures ONE_SHORT.recs + [Stamped(TWIN, now)] <= ReadAll(Reappended(ONE_SHORT, [Entry(TWIN, now)]).file)
  {
    TwinEndsInItsLength();
    assert TornBytes(ONE_SHORT.tear) == Frame(TWIN)[..29];
    assert Frames([]) + Frame(TWIN)[..29] == ONE_SHORT.file;
    OneByteShortIff(ONE_SHORT, TWIN, now);
  }

  lemma TwinEndsInItsLength()
    ensures |Encode(TWIN)| == 26 && Encode(TWIN)[25] == 26
  {
  }
}
