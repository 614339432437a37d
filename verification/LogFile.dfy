/**
 The write-ahead log over one open file: appends that may fail or tear, checkpoints,
 truncation, and reading back. The file is a byte sequence and the stream is unbuffered.
 */
module LogFile {
  import opened Bytes
  import opened WalRecord
  import opened WalStream

  /**
   What the operating system makes of one record write on a good stream: all of it is written,
   an exception is thrown before anything is written, or only `written` bytes get out and the
   stream is left failed.
   */
  datatype WriteOutcome = Wrote | Threw | Tore(written: nat)

  /** The frame that was being written when the stream failed. */
  datatype Tear = NoTear | Torn(record: WALRecord, written: nat)

  /**
   The log object's state. `recs`, `uncounted` and `tear` are history: the records written whole
   to the current file, those among them that `create_checkpoint` wrote, and the torn write.
   */
  datatype Wal = Wal(
    file: bytes,
    good: bool,
    totalRecords: nat,
    totalBytes: nat,
    recs: seq<WALRecord>,
    uncounted: seq<WALRecord>,
    tear: Tear)

  /** A torn write leaves a proper part of the frame. */
  function TornBytes(tear: Tear): bytes {
    match tear
    case NoTear => []
    case Torn(r, written) => Frame(r)[..Min(written, |Frame(r)| - 1)]
  }

  function NewWal(openOk: bool): Wal {
    Wal([], openOk, 0, 0, [], [], NoTear)
  }

  function Stamped(r: WALRecord, now: uint64): WALRecord {
    if r.timestamp == 0 then r.(timestamp := now) else r
  }

  /** The state after `write_record_to_file`, and what it returned. */
  function WriteRecord(w: Wal, r: WALRecord, outcome: WriteOutcome): (Wal, bool) {
    if !w.good || outcome.Threw? then (w, false)
    else if outcome.Wrote? then (w.(file := w.file + Frame(r), recs := w.recs + [r]), true)
    else
      var tear := Torn(r, outcome.written);
      (w.(file := w.file + TornBytes(tear), good := false, tear := tear), false)
  }

  function Append(w: Wal, r: WALRecord, now: uint64, outcome: WriteOutcome): (Wal, bool) {
    var stamped := Stamped(r, now);
    var (w', ok) := WriteRecord(w, stamped, outcome);
    (if ok then
       w'.(totalRecords := w.totalRecords + 1, totalBytes := w.totalBytes + stamped.Size())
     else w',
     ok)
  }

  function CheckpointRecord(name: bytes, now: uint64): WALRecord {
    WALRecord(CHECKPOINT, now, 0, ToU32(|name|), 0, name, [])
  }

  function Checkpoint(w: Wal, name: bytes, now: uint64, outcome: WriteOutcome): (Wal, bool) {
    var r := CheckpointRecord(name, now);
    var (w', ok) := WriteRecord(w, r, outcome);
    (if ok then w'.(uncounted := w.uncounted + [r]) else w', ok)
  }

  /** `truncate_log`: the log moves to a fresh file; the counters restart only if it opens. */
  function Truncate(w: Wal, openOk: bool): (Wal, bool) {
    if openOk then (NewWal(true), true)
    else (w.(file := [], good := false, recs := [], uncounted := [], tear := NoTear), false)
  }

  /**
   `read_all_records` closes the stream and, if the file can be read, opens it again in append
   mode, which may fail on its own.
   */
  function Reopen(w: Wal, readOk: bool, reopenOk: bool): Wal {
    if !readOk || !reopenOk then w.(good := false)
    else w.(good := true, tear := if TornBytes(w.tear) == [] then NoTear else w.tear)
  }

  /** An append succeeds exactly when it is written whole, and then the record is the last, with a time. */
  lemma AppendOutcome(w: Wal, r: WALRecord, now: uint64, outcome: WriteOutcome)
    ensures var (w', ok) := Append(w, r, now, outcome);
            && (ok <==> w.good && outcome == Wrote)
            && (w'.good <==> w.good && !outcome.Tore?)
            && (!ok ==> w'.recs == w.recs && w'.totalRecords == w.totalRecords && w'.totalBytes == w.totalBytes)
            && (ok ==>
                  var last := w'.recs[|w'.recs| - 1];
                  && w'.recs == w.recs + [last] && w'.file == w.file + Frame(last)
                  && last.timestamp == (if r.timestamp == 0 then now else r.timestamp)
                  && last.(timestamp := r.timestamp) == r)
  {
  }

  /** A checkpoint succeeds exactly when its record, of type 4 and with the name for its key, is written whole. */
  lemma CheckpointOutcome(w: Wal, name: bytes, now: uint64, outcome: WriteOutcome)
    requires |name| < TWO_32
    ensures var (w', ok) := Checkpoint(w, name, now, outcome);
            && (ok <==> w.good && outcome == Wrote)
            && (w'.good <==> w.good && !outcome.Tore?)
            && w'.recs == (if ok then w.recs + [WALRecord(4, now, 0, |name|, 0, name, [])] else w.recs)
            && w'.totalRecords == w.totalRecords && w'.totalBytes == w.totalBytes
  {
  }

  /** A truncation succeeds exactly when the new file opens, and leaves no record in either case. */
  lemma TruncateOutcome(w: Wal, openOk: bool)
    ensures var (w', ok) := Truncate(w, openOk);
            (ok <==> openOk) && (w'.good <==> openOk) && w'.file == [] && w'.recs == []
  {
  }

  /** Reading back changes no byte, and leaves a good stream exactly when both files opened. */
  lemma ReopenOutcome(w: Wal, readOk: bool, reopenOk: bool)
    ensures var w' := Reopen(w, readOk, reopenOk);
            && (w'.good <==> readOk && reopenOk)
            && w'.file == w.file && w'.recs == w.recs && TornBytes(w'.tear) == TornBytes(w.tear)
            && w'.totalRecords == w.totalRecords && w'.totalBytes == w.totalBytes
  {
  }

  /** The file holds the whole frames and the torn one, and a torn write left the stream failed. */
  ghost predicate Sound(w: Wal) {
    && w.file == Frames(w.recs) + TornBytes(w.tear)
    && (w.tear.Torn? ==> !w.good)
  }

  /** Length fields are true in everything written. */
  ghost predicate Honest(w: Wal) {
    && AllTrue(w.recs)
    && (w.tear.Torn? ==> w.tear.record.LengthsTrue())
  }

  lemma WriteKeepsSound(w: Wal, r: WALRecord, outcome: WriteOutcome)
    requires Sound(w)
    ensures Sound(WriteRecord(w, r, outcome).0)
  {
    if w.good && outcome.Wrote? {
      FramesSnoc(w.recs, r);
      assert Frames(w.recs) + [] == Frames(w.recs);
    } else if w.good && outcome.Tore? {
      assert Frames(w.recs) + [] == Frames(w.recs);
    }
  }

  /**
   A sound log cut at any byte reads back as its first j whole records, up to the first record
   over the reader's limit.
   */
  lemma ReadCutFile(w: Wal, cut: nat)
    requires Sound(w) && Honest(w) && cut <= |w.file|
    ensures ReadAll(w.file[..cut]) == w.recs[..Readable(w.recs, cut)]
  {
    match w.tear
    case NoTear =>
      assert w.file == Frames(w.recs);
      ReadCutLog(w.recs, cut);
    case Torn(r, _) =>
      var rs := w.recs + [r];
      FramesSnoc(w.recs, r);
      assert w.file[..cut] == Frames(rs)[..cut];
      ReadCutLog(rs, cut);
      WholeFramesIsGreatest(rs, cut, |rs|);
      assert rs[..|rs|] == rs;
      ReadableOfPrefix(w.recs, r, cut);
  }

  /** A sound log, torn or not, reads back as all its whole records if and only if each fits. */
  lemma ReadWholeFileIff(w: Wal)
    requires Sound(w) && Honest(w)
    ensures ReadAll(w.file) == w.recs <==> AllFit(w.recs)
  {
    if AllFit(w.recs) {
      ReadFittingFrames(w.recs, TornBytes(w.tear));
      if w.tear.Torn? {
        StopAtTornFrame(w.tear.record, TornBytes(w.tear));
      }
    }
    ReadRecordsFit(w.file);
  }

  /** A cut before the end of the last frame leaves that record without influence. */
  lemma {:induction false} ReadableOfPrefix(rs: seq<WALRecord>, r: WALRecord, cut: nat)
    requires cut < |Frames(rs + [r])|
    ensures (rs + [r])[..Readable(rs + [r], cut)] == rs[..Readable(rs, cut)]
  {
    var all := rs + [r];
    ReadableStep(all, cut);
    if rs == [] {
      assert all[1..] == [];
    } else {
      assert all[1..] == rs[1..] + [r];
      ReadableStep(rs, cut);
      if cut >= |Frame(rs[0])| && Fits(rs[0]) {
        var cut' := cut - |Frame(rs[0])|;
        ReadableOfPrefix(rs[1..], r, cut');
        TakeCons(rs[0], all[1..], Readable(all[1..], cut'));
        TakeCons(rs[0], rs[1..], Readable(rs[1..], cut'));
        assert all == [rs[0]] + all[1..] && rs == [rs[0]] + rs[1..];
      }
    }
  }

  // ---------------------------------------------------------------- accounting

  datatype WalOp =
    | AppendOp(record: WALRecord, now: uint64, outcome: WriteOutcome)
    | CheckpointOp(name: bytes, now: uint64, outcome: WriteOutcome)
    | TruncateOp(openOk: bool)

  function WalStep(w: Wal, op: WalOp): Wal {
    match op
    case AppendOp(r, now, outcome) => Append(w, r, now, outcome).0
    case CheckpointOp(name, now, outcome) => Checkpoint(w, name, now, outcome).0
    case TruncateOp(openOk) => Truncate(w, openOk).0
  }

  function WalRun(w: Wal, ops: seq<WalOp>): Wal {
    if ops == [] then w else WalStep(WalRun(w, ops[..|ops| - 1]), ops[|ops| - 1])
  }

  /** The lengths written by this operation are true (no string of 4 GiB or more). */
  predicate HonestOp(op: WalOp) {
    match op
    case AppendOp(r, _, _) => r.LengthsTrue()
    case CheckpointOp(name, _, _) => |name| < TWO_32
    case TruncateOp(_) => true
  }

  /** The counters against the file: they leave out checkpoint frames and torn bytes. */
  ghost predicate Accounted(w: Wal) {
    |w.file| == w.totalBytes + 4 * w.totalRecords + |Frames(w.uncounted)| + |TornBytes(w.tear)|
  }

  lemma AccountedWrite(w: Wal, r: WALRecord, outcome: WriteOutcome)
    requires Sound(w) && r.LengthsTrue()
    ensures var (w', ok) := WriteRecord(w, r, outcome);
            && Sound(w')
            && |w'.file| - |TornBytes(w'.tear)|
               == |w.file| - |TornBytes(w.tear)| + if ok then 4 + r.Size() else 0
  {
    WriteKeepsSound(w, r, outcome);
    assert |Frame(r)| == 4 + r.Size();
    if w.good && outcome.Wrote? {
      FramesSnoc(w.recs, r);
    }
  }

  lemma AccountedStep(w: Wal, op: WalOp)
    requires Sound(w) && Accounted(w) && HonestOp(op) && op != TruncateOp(false)
    ensures Sound(WalStep(w, op)) && Accounted(WalStep(w, op))
  {
    match op
    case AppendOp(r, now, outcome) =>
      AccountedWrite(w, Stamped(r, now), outcome);
    case CheckpointOp(name, now, outcome) =>
      AccountedWrite(w, CheckpointRecord(name, now), outcome);
      FramesSnoc(w.uncounted, CheckpointRecord(name, now));
    case TruncateOp(_) =>
  }

  /** The last truncation of the run, if there was one, could not open its file. */
  predicate Closed(ops: seq<WalOp>) {
    if ops == [] then false
    else
      match ops[|ops| - 1]
      case TruncateOp(openOk) => !openOk
      case _ => Closed(ops[..|ops| - 1])
  }

  /** No file is open: nothing is in it and nothing gets in. */
  ghost predicate Shut(w: Wal) {
    w.file == [] && !w.good && w.recs == [] && w.uncounted == [] && w.tear == NoTear
  }

  lemma CountersTogether(w: Wal, op: WalOp)
    requires w.totalRecords == 0 <==> w.totalBytes == 0
    ensures WalStep(w, op).totalRecords == 0 <==> WalStep(w, op).totalBytes == 0
  {
  }

  lemma RecordsCounted(w: Wal, op: WalOp)
    requires op == TruncateOp(true) || w.totalRecords + |w.uncounted| == |w.recs|
    requires op != TruncateOp(false)
    ensures WalStep(w, op).totalRecords + |WalStep(w, op).uncounted| == |WalStep(w, op).recs|
  {
  }

  lemma StepAfterClosed(w: Wal, op: WalOp)
    requires Shut(w)
    ensures if op == TruncateOp(true) then WalStep(w, op) == NewWal(true) else Shut(WalStep(w, op))
  {
  }

  /**
   After any mix of appends, checkpoints and truncations, whatever failed: either the last
   truncation could not open its file, and then the file stays empty and the stream failed; or
   the file length is total_bytes + 4 * total_records plus the checkpoint frames plus the torn
   bytes, total_records is the number of other records, and nothing is torn while the stream is good.
   */
  lemma {:induction false} LogAccounting(ops: seq<WalOp>)
    requires forall op | op in ops :: HonestOp(op)
    ensures var w := WalRun(NewWal(true), ops);
            && (w.totalRecords == 0 <==> w.totalBytes == 0)
            && if Closed(ops) then Shut(w)
               else
                 && Sound(w) && Accounted(w) && (w.good ==> TornBytes(w.tear) == [])
                 && w.totalRecords + |w.uncounted| == |w.recs|
  {
    if ops != [] {
      var before, op := ops[..|ops| - 1], ops[|ops| - 1];
      LogAccounting(before);
      var w := WalRun(NewWal(true), before);
      CountersTogether(w, op);
      if Closed(before) {
        StepAfterClosed(w, op);
      } else if op != TruncateOp(false) {
        AccountedStep(w, op);
        RecordsCounted(w, op);
      }
    }
  }

  /**
   The account of the file length fails exactly after a truncation that could not open its file,
   not made up for since, if a record had been counted: the old counters stay.
   */
  lemma AccountingIff(ops: seq<WalOp>)
    requires forall op | op in ops :: HonestOp(op)
    ensures var w := WalRun(NewWal(true), ops);
            Accounted(w) <==> !Closed(ops) || w.totalRecords == 0
  {
    LogAccounting(ops);
  }

  const APPEND_THEN_SHUT: seq<WalOp> := [AppendOp(CheckpointRecord([], 1), 1, Wrote), TruncateOp(false)]

  /** One append and a truncation that cannot open its file: an empty file, and one record counted. */
  lemma CountersOutliveFile()
    ensures var w := WalRun(NewWal(true), APPEND_THEN_SHUT);
            w.file == [] && w.totalRecords == 1 && !Accounted(w)
  {
    assert APPEND_THEN_SHUT[..1][..0] == [];
    AccountingIff(APPEND_THEN_SHUT);
  }

  /** One turn of the reading loop, after `records` were read and with `rest` still to read. */
  lemma OneMoreRead(records: seq<WALRecord>, rest: bytes)
    ensures ReadFrame(rest) == None ==> records + ReadAll(rest) == records
    ensures ReadFrame(rest).Some? ==>
              (records + [ReadFrame(rest).value.0]) + ReadAll(rest[ReadFrame(rest).value.1..]) == records + ReadAll(rest)
  {
    var got := ReadFrame(rest);
    if got.Some? {
      Associative(records, [got.value.0], ReadAll(rest[got.value.1..]));
    }
  }

  // ---------------------------------------------------------------- the log object

  class WriteAheadLog {
    var file: bytes
    var good: bool
    var totalRecords: nat
    var totalBytes: nat
    ghost var recs: seq<WALRecord>
    ghost var uncounted: seq<WALRecord>
    ghost var tear: Tear

    ghost function State(): Wal
      reads this
    {
      Wal(file, good, totalRecords, totalBytes, recs, uncounted, tear)
    }

    constructor (contents: bytes, openOk: bool)
      ensures State() == NewWal(openOk).(file := contents)
    {
      file, good, totalRecords, totalBytes := contents, openOk, 0, 0;
      recs, uncounted, tear := [], [], NoTear;
    }

    method WriteRecordToFile(r: WALRecord, outcome: WriteOutcome) returns (ok: bool)
      modifies this
      ensures (State(), ok) == WriteRecord(old(State()), r, outcome)
    {
      if outcome.Threw? {
        return false;
      }
      var data := Serialize(r);
      var frame := LE(ToU32(|data|), 4) + data;
      if good {
        if outcome.Tore? {
          file := file + frame[..Min(outcome.written, |frame| - 1)];
          good := false;
          tear := Torn(r, outcome.written);
        } else {
          file := file + frame;
          recs := recs + [r];
        }
      }
      return good;
    }

    method AppendRecord(r: WALRecord, now: uint64, outcome: WriteOutcome) returns (ok: bool)
      modifies this
      ensures (State(), ok) == Append(old(State()), r, now, outcome)
    {
      var stamped := r;
      if stamped.timestamp == 0 {
        stamped := stamped.(timestamp := now);
      }
      ok := WriteRecordToFile(stamped, outcome);
      if !ok {
        return;
      }
      totalRecords := totalRecords + 1;
      totalBytes := totalBytes + stamped.Size();
    }

    method CreateCheckpoint(name: bytes, now: uint64, outcome: WriteOutcome) returns (ok: bool)
      modifies this
      ensures (State(), ok) == Checkpoint(old(State()), name, now, outcome)
    {
      var r := WALRecord(CHECKPOINT, now, 0, ToU32(|name|), 0, name, []);
      ok := WriteRecordToFile(r, outcome);
      if ok {
        uncounted := uncounted + [r];
      }
    }

    method TruncateLog(openOk: bool) returns (ok: bool)
      modifies this
      ensures (State(), ok) == Truncate(old(State()), openOk)
    {
      file, good := [], openOk;
      recs, uncounted, tear := [], [], NoTear;
      if !openOk {
        return false;
      }
      totalRecords, totalBytes := 0, 0;
      return true;
    }

    /** Reads the current file back, if it can be opened, and opens it for appending again, if it can. */
    method ReadAllRecords(readOk: bool, reopenOk: bool) returns (records: seq<WALRecord>)
      modifies this
      ensures State() == Reopen(old(State()), readOk, reopenOk)
      ensures records == if readOk then ReadAll(old(file)) else []
    {
      records := [];
      good := false;
      if !readOk {
        return;
      }
      var contents := file;
      var rest := contents;
      while true
        invariant records + ReadAll(rest) == ReadAll(contents)
        decreases |rest|
        modifies {}
      {
        OneMoreRead(records, rest);
        if |rest| < 4 {
          break;
        }
        var size := U32At(rest, 0);
        if size > RECORD_LIMIT {
          break;
        }
        if |rest| < 4 + size {
          break;
        }
        var result := Deserialize(rest[4..4 + size]);
        if result.Failed? {
          break;
        }
        records := records + [result.record];
        rest := rest[4 + size..];
      }
      good := reopenOk;
      if reopenOk && TornBytes(tear) == [] {
        tear := NoTear;
      }
    }
  }
}
