/**
 The key/value database over its log: transactions change the live map first, then append, and
 undo if the append fails. Runs of operations, and what a crash at any byte leaves.
 */
module Database {
  import opened Bytes
  import opened WalRecord
  import opened WalStream
  import opened LogFile
  import opened Replay
  import opened RangeScan
  import opened History

  datatype OperationResult = Success | KeyNotFound | SystemError

  /** What the environment supplies to one append: the clock and the fate of the write. */
  datatype Io = Io(now: uint64, outcome: WriteOutcome)

  // ---------------------------------------------------------------- what one call does

  function PutRecord(id: uint64, key: bytes, value: bytes): WALRecord {
    WALRecord(PUT, 0, id, ToU32(|key|), ToU32(|value|), key, value)
  }

  function DeleteRecord(id: uint64, key: bytes): WALRecord {
    WALRecord(DELETE, 0, id, ToU32(|key|), 0, key, [])
  }

  function CommitRecord(id: uint64): WALRecord {
    WALRecord(COMMIT, 0, id, 0, 0, [], [])
  }

  datatype Effect = Effect(data: KeyValues, wal: Wal, hasWrites: bool, result: OperationResult)

  /** A PUT that cannot be logged leaves its key absent, whatever it held before. */
  function PutEffect(data: KeyValues, wal: Wal, id: uint64, key: bytes, value: bytes, io: Io): Effect {
    var (wal', ok) := Append(wal, PutRecord(id, key, value), io.now, io.outcome);
    if ok then Effect(data[key := value], wal', true, Success)
    else Effect(data - {key}, wal', false, SystemError)
  }

  /** A DELETE that cannot be logged leaves the map as it was. */
  function DelEffect(data: KeyValues, wal: Wal, hasWrites: bool, id: uint64, key: bytes, io: Io): Effect {
    if key !in data then Effect(data, wal, hasWrites, KeyNotFound)
    else
      var (wal', ok) := Append(wal, DeleteRecord(id, key), io.now, io.outcome);
      if ok then Effect(data - {key}, wal', true, Success)
      else Effect(data, wal', false, SystemError)
  }

  function CommitEffect(data: KeyValues, wal: Wal, hasWrites: bool, id: uint64, io: Io): Effect {
    if !hasWrites then Effect(data, wal, hasWrites, Success)
    else
      var (wal', ok) := Append(wal, CommitRecord(id), io.now, io.outcome);
      Effect(data, wal', hasWrites, if ok then Success else SystemError)
  }

  /** A PUT succeeds exactly when its record, of type 1, is written whole; else the key is gone. */
  lemma PutOutcome(data: KeyValues, w: Wal, id: uint64, key: bytes, value: bytes, io: Io)
    requires |key| < TWO_32 && |value| < TWO_32
    ensures var e := PutEffect(data, w, id, key, value, io);
            && (e.result == Success <==> w.good && io.outcome == Wrote)
            && (e.hasWrites <==> e.result == Success)
            && if e.result == Success then
                 && e.wal.recs == w.recs + [WALRecord(1, io.now, id, |key|, |value|, key, value)]
                 && e.data == data[key := value]
               else
                 e.result == SystemError && e.wal.recs == w.recs && e.data == data - {key}
  {
  }

  /** A DELETE of a present key succeeds exactly when its record, of type 2, is written whole. */
  lemma DelOutcome(data: KeyValues, w: Wal, hasWrites: bool, id: uint64, key: bytes, io: Io)
    requires |key| < TWO_32
    ensures var e := DelEffect(data, w, hasWrites, id, key, io);
            && (e.result == KeyNotFound <==> key !in data)
            && (e.result == Success <==> key in data && w.good && io.outcome == Wrote)
            && e.hasWrites == (if e.result == KeyNotFound then hasWrites else e.result == Success)
            && if e.result == Success then
                 && e.wal.recs == w.recs + [WALRecord(2, io.now, id, |key|, 0, key, [])]
                 && key !in e.data && e.data == data - {key}
               else
                 e.wal.recs == w.recs && e.data == data
  {
  }

  /** A commit with writes succeeds exactly when its record, of type 3, is written whole. */
  lemma CommitOutcome(data: KeyValues, w: Wal, hasWrites: bool, id: uint64, io: Io)
    ensures var e := CommitEffect(data, w, hasWrites, id, io);
            && (!hasWrites ==> e.result == Success && e.wal == w)
            && (hasWrites ==>
                  && (e.result == Success <==> w.good && io.outcome == Wrote)
                  && e.result in {Success, SystemError}
                  && e.wal.recs == if e.result == Success then w.recs + [WALRecord(3, io.now, id, 0, 0, [], [])] else w.recs)
            && e.data == data && e.hasWrites == hasWrites
  {
  }

  /** An absent key reads as the empty string. */
  function ValueOf(data: KeyValues, key: bytes): bytes {
    if key in data then data[key] else []
  }

  // ---------------------------------------------------------------- the objects

  class PersistentTransaction {
    const db: PersistentDatabase
    const wal: WriteAheadLog
    const id: uint64
    var hasWrites: bool

    constructor (db: PersistentDatabase, wal: WriteAheadLog, id: uint64)
      ensures this.db == db && this.wal == wal && this.id == id && !hasWrites
    {
      this.db, this.wal, this.id, hasWrites := db, wal, id, false;
    }

    method Get(key: bytes) returns (value: bytes)
      ensures value == ValueOf(db.data, key)
    {
      value := if key in db.data then db.data[key] else [];
    }

    method Put(key: bytes, value: bytes, io: Io) returns (result: OperationResult)
      modifies this, db`data, wal
      ensures Effect(db.data, wal.State(), hasWrites, result)
           == PutEffect(old(db.data), old(wal.State()), id, key, value, io)
    {
      db.data := db.data[key := value];
      hasWrites := true;
      var record := WALRecord(PUT, 0, id, ToU32(|key|), ToU32(|value|), key, value);
      var ok := wal.AppendRecord(record, io.now, io.outcome);
      if !ok {
        db.data := db.data - {key};
        hasWrites := false;
        return SystemError;
      }
      return Success;
    }

    method Del(key: bytes, io: Io) returns (result: OperationResult)
      modifies this, db`data, wal
      ensures Effect(db.data, wal.State(), hasWrites, result)
           == DelEffect(old(db.data), old(wal.State()), old(hasWrites), id, key, io)
    {
      if key !in db.data {
        return KeyNotFound;
      }
      var oldValue := db.data[key];
      db.data := db.data - {key};
      hasWrites := true;
      var record := WALRecord(DELETE, 0, id, ToU32(|key|), 0, key, []);
      var ok := wal.AppendRecord(record, io.now, io.outcome);
      if !ok {
        db.data := db.data[key := oldValue];
        hasWrites := false;
        return SystemError;
      }
      return Success;
    }

    /** `order` is the order in which the hash map happens to be visited. */
    method Scan(order: Pairs, start: bytes, end: bytes, limit: nat) returns (result: Pairs)
      requires Enumerates(order, db.data)
      ensures result == ScanOf(order, start, end, limit)
      ensures IsScan(db.data, start, end, limit, result)
    {
      ScanOfIsScan(db.data, order, start, end, limit);
      result := RangeScan.Scan(order, start, end, limit);
    }

    method Commit(io: Io) returns (result: OperationResult)
      modifies wal
      ensures Effect(db.data, wal.State(), hasWrites, result)
           == CommitEffect(old(db.data), old(wal.State()), old(hasWrites), id, io)
    {
      if hasWrites {
        var record := WALRecord(COMMIT, 0, id, 0, 0, [], []);
        var ok := wal.AppendRecord(record, io.now, io.outcome);
        if !ok {
          return SystemError;
        }
      }
      return Success;
    }
  }

  class PersistentDatabase {
    var data: KeyValues
    var initialized: bool
    var nextTransactionId: uint64
    var wal: WriteAheadLog?

    ghost predicate Valid()
      reads this
    {
      initialized ==> wal != null
    }

    constructor ()
      ensures Valid() && data == map[] && !initialized && nextTransactionId == 1
    {
      data, initialized, nextTransactionId, wal := map[], false, 1, null;
    }

    /**
     Opens the log file and folds what it already holds over the map. `contents` are the bytes
     behind the chosen file name: none when the name is fresh. `fault` is the record, if any, at
     which folding runs into an exception.
     */
    method Initialize(contents: bytes, openOk: bool, readOk: bool, reopenOk: bool, fault: Option<nat>)
      returns (result: OperationResult)
      modifies this
      ensures Valid() && fresh(wal)
      ensures wal.State() == Reopen(NewWal(openOk).(file := contents), readOk, reopenOk)
      ensures nextTransactionId == old(nextTransactionId)
      ensures var records := if readOk then ReadAll(contents) else [];
              if fault.Some? && fault.value < |records| then
                && result == SystemError && initialized == old(initialized)
                && data == ReplayOn(old(data), records[..fault.value])
              else
                result == Success && initialized && data == ReplayOn(old(data), records)
    {
      var log := new WriteAheadLog(contents, openOk);
      wal := log;
      var records := log.ReadAllRecords(readOk, reopenOk);
      if fault.Some? && fault.value < |records| {
        data := ReplayRecords(data, records[..fault.value]);
        return SystemError;
      }
      if records != [] {
        data := ReplayRecords(data, records);
      }
      initialized := true;
      return Success;
    }

    method BeginTransaction() returns (txn: PersistentTransaction?)
      requires Valid()
      modifies this`nextTransactionId
      ensures txn == null <==> !initialized
      ensures txn != null ==>
                && fresh(txn) && txn.db == this && txn.wal == wal
                && txn.id == old(nextTransactionId) && !txn.hasWrites
      ensures nextTransactionId == if initialized then NextId(old(nextTransactionId)) else old(nextTransactionId)
    {
      if !initialized {
        return null;
      }
      var id := nextTransactionId;
      nextTransactionId := NextId(nextTransactionId);
      txn := new PersistentTransaction(this, wal, id);
    }

    method Compact(openOk: bool) returns (result: OperationResult)
      modifies wal
      ensures result == Success
      ensures wal != null ==> wal.State() == Truncate(old(wal.State()), openOk).0
    {
      if wal != null {
        var _ := wal.TruncateLog(openOk);
      }
      return Success;
    }

    method Backup(path: bytes, io: Io) returns (result: OperationResult)
      modifies wal
      ensures wal == null ==> result == SystemError
      ensures wal != null ==>
                var (wal', ok) := Checkpoint(old(wal.State()), path, io.now, io.outcome);
                wal.State() == wal' && result == if ok then Success else SystemError
    {
      if wal == null {
        return SystemError;
      }
      var ok := wal.CreateCheckpoint(path, io.now, io.outcome);
      return if ok then Success else SystemError;
    }

    method Shutdown(checkpointFile: bytes, io: Io)
      requires Valid()
      modifies this`initialized, wal
      ensures !initialized
      ensures old(initialized) ==>
                wal.State() == Checkpoint(old(wal.State()), checkpointFile, io.now, io.outcome).0
      ensures !old(initialized) && wal != null ==> wal.State() == old(wal.State())
    {
      if initialized {
        var _ := wal.CreateCheckpoint(checkpointFile, io.now, io.outcome);
        initialized := false;
      }
    }
  }

  /** The counter wraps around. */
  function NextId(id: uint64): uint64 {
    if id + 1 < TWO_64 then id + 1 else 0
  }

  lemma NextIdWraps(id: uint64)
    ensures NextId(id) == (id + 1) % 0x1_0000_0000_0000_0000
  {
  }

  // ---------------------------------------------------------------- runs

  /**
   A database in use. `wrote` holds the transactions with `has_writes_` set. History: the events
   so far and the records that went to files given up by compaction.
   */
  datatype Store = Store(
    data: KeyValues,
    wal: Wal,
    nextId: uint64,
    wrote: set<uint64>,
    events: seq<Event>,
    forgotten: seq<WALRecord>)

  datatype Op =
    | BeginOp
    | GetOp(id: uint64, key: bytes)
    | PutOp(id: uint64, key: bytes, value: bytes, io: Io)
    | DelOp(id: uint64, key: bytes, io: Io)
    | CommitOp(id: uint64, io: Io)
    | BackupOp(name: bytes, io: Io)
    | CompactOp(openOk: bool)

  const NEW_STORE: Store := Store(map[], NewWal(true), 1, {}, [], [])

  function SetFlag(flags: set<uint64>, id: uint64, on: bool): set<uint64> {
    if on then flags + {id} else flags - {id}
  }

  /** The store after a call whose effect and event are given. */
  function Took(s: Store, id: uint64, e: Effect, event: Event): Store {
    s.(data := e.data, wal := e.wal, wrote := SetFlag(s.wrote, id, e.hasWrites), events := s.events + [event])
  }

  function DeletionOf(result: OperationResult): Deletion {
    match result
    case Success => Deleted
    case KeyNotFound => Missed
    case SystemError => DeleteFailed
  }

  function Step(s: Store, op: Op): Store {
    match op
    case BeginOp => s.(nextId := NextId(s.nextId))
    case GetOp(id, key) => s.(events := s.events + [GetEvent(id, key, ValueOf(s.data, key))])
    case PutOp(id, key, value, io) =>
      var e := PutEffect(s.data, s.wal, id, key, value, io);
      Took(s, id, e, PutEvent(id, key, value, e.result.Success?))
    case DelOp(id, key, io) =>
      var e := DelEffect(s.data, s.wal, id in s.wrote, id, key, io);
      Took(s, id, e, DelEvent(id, key, DeletionOf(e.result)))
    case CommitOp(id, io) =>
      s.(wal := CommitEffect(s.data, s.wal, id in s.wrote, id, io).wal)
    case BackupOp(name, io) => s.(wal := Checkpoint(s.wal, name, io.now, io.outcome).0)
    case CompactOp(openOk) =>
      s.(wal := Truncate(s.wal, openOk).0, forgotten := s.forgotten + s.wal.recs)
  }

  function Run(ops: seq<Op>): Store {
    if ops == [] then NEW_STORE else Step(Run(ops[..|ops| - 1]), ops[|ops| - 1])
  }

  lemma RunOne(ops: seq<Op>, op: Op)
    ensures Run(ops + [op]) == Step(Run(ops), op)
  {
    assert (ops + [op])[..|ops|] == ops;
  }

  /** No string of 4 GiB or more, whose length would not fit its 32-bit field. */
  predicate Sized(op: Op) {
    match op
    case PutOp(_, key, value, _) => |key| < TWO_32 && |value| < TWO_32
    case DelOp(_, key, _) => |key| < TWO_32
    case BackupOp(name, _) => |name| < TWO_32
    case _ => true
  }

  ghost predicate AllSized(ops: seq<Op>) {
    forall op | op in ops :: Sized(op)
  }

  predicate IsCompact(op: Op) {
    op.CompactOp?
  }

  /** What holds between any two operations. */
  ghost predicate Consistent(s: Store) {
    && Sound(s.wal)
    && Legal(s.events)
    && s.data == LiveAfter(s.events)
    && Writes(s.forgotten + s.wal.recs) == Logged(s.events)
  }

  /** From `w` to `w'` these writes came to the log, and nothing else that replay looks at. */
  ghost predicate Gained(w: Wal, w': Wal, forgotten: seq<WALRecord>, ws: seq<Write>) {
    Sound(w') && Writes(forgotten + w'.recs) == Writes(forgotten + w.recs) + ws
  }

  /** One more record at the end of the log adds what it writes. */
  lemma WritesGrow(forgotten: seq<WALRecord>, recs: seq<WALRecord>, r: WALRecord)
    ensures Writes(forgotten + (recs + [r])) == Writes(forgotten + recs) + WriteOf(r)
  {
    Associative(forgotten, recs, [r]);
    var all := forgotten + recs;
    assert (all + [r])[..|all|] == all;
  }

  lemma NothingGained(w: Wal, w': Wal, forgotten: seq<WALRecord>)
    requires Sound(w') && w'.recs == w.recs
    ensures Gained(w, w', forgotten, [])
  {
    assert Writes(forgotten + w.recs) + [] == Writes(forgotten + w.recs);
  }

  lemma RecordGained(w: Wal, w': Wal, forgotten: seq<WALRecord>, r: WALRecord)
    requires Sound(w') && w'.recs == w.recs + [r]
    ensures Gained(w, w', forgotten, WriteOf(r))
  {
    WritesGrow(forgotten, w.recs, r);
  }

  lemma AppendGains(w: Wal, forgotten: seq<WALRecord>, r: WALRecord, io: Io)
    requires Sound(w)
    ensures var (w', ok) := Append(w, r, io.now, io.outcome);
            Gained(w, w', forgotten, if ok then WriteOf(r) else [])
  {
    var s := Stamped(r, io.now);
    var (w', ok) := Append(w, r, io.now, io.outcome);
    WriteKeepsSound(w, s, io.outcome);
    if ok {
      RecordGained(w, w', forgotten, s);
    } else {
      NothingGained(w, w', forgotten);
    }
  }

  lemma CheckpointGains(w: Wal, forgotten: seq<WALRecord>, name: bytes, io: Io)
    requires Sound(w)
    ensures Gained(w, Checkpoint(w, name, io.now, io.outcome).0, forgotten, [])
  {
    var r := CheckpointRecord(name, io.now);
    var (w', ok) := Checkpoint(w, name, io.now, io.outcome);
    WriteKeepsSound(w, r, io.outcome);
    if ok {
      RecordGained(w, w', forgotten, r);
    } else {
      NothingGained(w, w', forgotten);
    }
  }

  lemma StepKeepsConsistent(s: Store, op: Op)
    requires Consistent(s)
    ensures Consistent(Step(s, op))
  {
    match op
    case BeginOp =>
    case GetOp(id, key) =>
      NothingGained(s.wal, s.wal, s.forgotten);
      TookEvent(s, Step(s, op), GetEvent(id, key, ValueOf(s.data, key)));
    case PutOp(id, key, value, io) =>
      PutKeepsConsistent(s, id, key, value, io);
    case DelOp(id, key, io) =>
      DelKeepsConsistent(s, id, key, io);
    case CommitOp(id, io) =>
      CommitGains(s.data, s.wal, id in s.wrote, s.forgotten, id, io);
      LogOnly(s, Step(s, op));
    case BackupOp(name, io) =>
      CheckpointGains(s.wal, s.forgotten, name, io);
      LogOnly(s, Step(s, op));
    case CompactOp(openOk) =>
      CompactKeepsConsistent(s, openOk);
  }

  /** One more event, with the map and the log it calls for, keeps the store consistent. */
  lemma TookEvent(s: Store, t: Store, e: Event)
    requires Consistent(s) && Correct(s.data, e) && Gained(s.wal, t.wal, s.forgotten, WriteOfEvent(e))
    requires t.forgotten == s.forgotten && t.events == s.events + [e] && t.data == After(s.data, e)
    ensures Consistent(t)
  {
    LegalSnoc(s.events, e);
    SnocParts(s.events, e);
  }

  /** A step that only adds inert records to the log. */
  lemma LogOnly(s: Store, t: Store)
    requires Consistent(s) && Gained(s.wal, t.wal, s.forgotten, [])
    requires t.forgotten == s.forgotten && t.data == s.data && t.events == s.events
    ensures Consistent(t)
  {
    assert Writes(s.forgotten + s.wal.recs) + [] == Writes(s.forgotten + s.wal.recs);
  }

  lemma CommitGains(data: KeyValues, w: Wal, hasWrites: bool, forgotten: seq<WALRecord>, id: uint64, io: Io)
    requires Sound(w)
    ensures Gained(w, CommitEffect(data, w, hasWrites, id, io).wal, forgotten, [])
  {
    if hasWrites {
      AppendGains(w, forgotten, CommitRecord(id), io);
      assert WriteOf(CommitRecord(id)) == [];
    } else {
      NothingGained(w, w, forgotten);
    }
  }

  lemma CompactKeepsConsistent(s: Store, openOk: bool)
    requires Consistent(s)
    ensures Consistent(Step(s, CompactOp(openOk)))
  {
    var t := Step(s, CompactOp(openOk));
    assert t.wal.recs == [];
    assert t.forgotten + [] == s.forgotten + s.wal.recs;
  }

  /** What a PUT does to map and log is what its event says. */
  lemma PutMatchesEvent(data: KeyValues, w: Wal, forgotten: seq<WALRecord>, id: uint64, key: bytes, value: bytes, io: Io)
    requires Sound(w)
    ensures var e := PutEffect(data, w, id, key, value, io);
            var event := PutEvent(id, key, value, e.result.Success?);
            e.data == After(data, event) && Gained(w, e.wal, forgotten, WriteOfEvent(event))
  {
    AppendGains(w, forgotten, PutRecord(id, key, value), io);
    assert WriteOf(PutRecord(id, key, value)) == [SetKey(id, key, value)];
  }

  lemma PutKeepsConsistent(s: Store, id: uint64, key: bytes, value: bytes, io: Io)
    requires Consistent(s)
    ensures Consistent(Step(s, PutOp(id, key, value, io)))
  {
    PutMatchesEvent(s.data, s.wal, s.forgotten, id, key, value, io);
    var logged := PutEffect(s.data, s.wal, id, key, value, io).result.Success?;
    TookEvent(s, Step(s, PutOp(id, key, value, io)), PutEvent(id, key, value, logged));
  }

  /** What a DELETE does to map and log is what its event says. */
  lemma DelMatchesEvent(data: KeyValues, w: Wal, hasWrites: bool, forgotten: seq<WALRecord>, id: uint64, key: bytes, io: Io)
    requires Sound(w)
    ensures var e := DelEffect(data, w, hasWrites, id, key, io);
            var event := DelEvent(id, key, DeletionOf(e.result));
            && Correct(data, event) && e.data == After(data, event)
            && Gained(w, e.wal, forgotten, WriteOfEvent(event))
  {
    if key in data {
      AppendGains(w, forgotten, DeleteRecord(id, key), io);
      assert WriteOf(DeleteRecord(id, key)) == [EraseKey(id, key)];
    } else {
      NothingGained(w, w, forgotten);
    }
  }

  lemma DelKeepsConsistent(s: Store, id: uint64, key: bytes, io: Io)
    requires Consistent(s)
    ensures Consistent(Step(s, DelOp(id, key, io)))
  {
    DelMatchesEvent(s.data, s.wal, id in s.wrote, s.forgotten, id, key, io);
    var e := DelEffect(s.data, s.wal, id in s.wrote, id, key, io);
    TookEvent(s, Step(s, DelOp(id, key, io)), DelEvent(id, key, DeletionOf(e.result)));
  }

  lemma {:induction false} RunIsConsistent(ops: seq<Op>)
    ensures Consistent(Run(ops))
  {
    if ops != [] {
      RunIsConsistent(ops[..|ops| - 1]);
      StepKeepsConsistent(Run(ops[..|ops| - 1]), ops[|ops| - 1]);
    } else {
      assert Frames([]) + [] == [];
    }
  }

  /** Each GET, PUT and DELETE of a run is one event of it; the other calls are none. */
  lemma {:induction false} CallsAreEvents(ops: seq<Op>)
    ensures |Run(ops).events| == CountCalls(ops)
  {
    if ops != [] {
      CallsAreEvents(ops[..|ops| - 1]);
    }
  }

  function CountCalls(ops: seq<Op>): nat {
    if ops == [] then 0
    else
      var last := ops[|ops| - 1];
      CountCalls(ops[..|ops| - 1]) + if last.GetOp? || last.PutOp? || last.DelOp? then 1 else 0
  }

  /** A run's ids count its begun transactions, until they wrap. */
  lemma {:induction false} BeginsAreCounted(ops: seq<Op>)
    requires CountBegins(ops) + 1 < TWO_64
    ensures Run(ops).nextId == CountBegins(ops) + 1
  {
    if ops != [] {
      BeginsAreCounted(ops[..|ops| - 1]);
    }
  }

  function CountBegins(ops: seq<Op>): nat {
    if ops == [] then 0 else CountBegins(ops[..|ops| - 1]) + if ops[|ops| - 1].BeginOp? then 1 else 0
  }

  lemma AttemptsAfterCall(events: seq<Event>, e: Event, id: uint64)
    ensures LastAttempt(events + [e], id)
         == if e.PutEvent? && e.id == id then Some(e.logged)
            else if e.DelEvent? && e.id == id && !e.deletion.Missed? then Some(e.deletion.Deleted?)
            else LastAttempt(events, id)
  {
    SnocParts(events, e);
  }

  /** A transaction's flag says whether its last PUT, or DELETE that found its key, was logged. */
  lemma {:induction false} RunFlagIff(ops: seq<Op>, id: uint64)
    ensures id in Run(ops).wrote <==> LastAttempt(Run(ops).events, id) == Some(true)
  {
    if ops != [] {
      var n := |ops| - 1;
      RunFlagIff(ops[..n], id);
      StepKeepsFlag(Run(ops[..n]), ops[n], id);
    }
  }

  lemma StepKeepsFlag(s: Store, op: Op, id: uint64)
    requires id in s.wrote <==> LastAttempt(s.events, id) == Some(true)
    ensures var t := Step(s, op);
            id in t.wrote <==> LastAttempt(t.events, id) == Some(true)
  {
    var t := Step(s, op);
    if t.events != s.events {
      var e := t.events[|s.events|];
      assert t.events == s.events + [e];
      AttemptsAfterCall(s.events, e, id);
    }
  }

  /** So a commit adds a record of type 3 if and only if that was so and the write comes through. */
  lemma RunCommitIff(ops: seq<Op>, id: uint64, io: Io)
    ensures var s := Run(ops);
            var record := WALRecord(3, io.now, id, 0, 0, [], []);
            Run(ops + [CommitOp(id, io)]).wal.recs
            == if LastAttempt(s.events, id) == Some(true) && s.wal.good && io.outcome == Wrote
               then s.wal.recs + [record] else s.wal.recs
  {
    RunFlagIff(ops, id);
    RunOne(ops, CommitOp(id, io));
    CommitOutcome(Run(ops).data, Run(ops).wal, id in Run(ops).wrote, id, io);
  }

  /** A backup adds a record of type 4 if and only if the write comes through, and nothing else. */
  lemma BackupOutcome(s: Store, name: bytes, io: Io)
    requires |name| < TWO_32
    ensures var t := Step(s, BackupOp(name, io));
            && t == s.(wal := t.wal)
            && t.wal.recs == if s.wal.good && io.outcome == Wrote
                             then s.wal.recs + [WALRecord(4, io.now, 0, |name|, 0, name, [])] else s.wal.recs
  {
    CheckpointOutcome(s.wal, name, io.now, io.outcome);
  }

  /** The map behind the files given up by compaction. */
  function Base(s: Store): KeyValues {
    ReplayOn(map[], s.forgotten)
  }

  /** Every record ever logged, in order. */
  function AllRecords(s: Store): seq<WALRecord> {
    s.forgotten + s.wal.recs
  }

  /**
   Whatever appends failed or tore, the live map is the replay of all logged records without the
   lost keys; the lost keys are exactly those present when a PUT of them failed and not PUT
   successfully since; so the live map is part of the replay, and equal to it if and only if no
   key is lost.
   */
  lemma LiveMapVersusLog(ops: seq<Op>)
    ensures var s := Run(ops);
            && s.data == ReplayOn(Base(s), s.wal.recs) - Lost(s.events)
            && (forall key | key in s.data :: Lookup(ReplayOn(Base(s), s.wal.recs), key) == Some(s.data[key]))
            && (forall key :: key in Lost(s.events) <==> exists i :: LosesKey(s.events, key, i))
            && (s.data == ReplayOn(Base(s), s.wal.recs) <==> Lost(s.events) == {})
  {
    var s := Run(ops);
    LiveIsReplay(ops);
    LiveIsSubmapOfReplay(s.events);
    forall key
      ensures key in Lost(s.events) <==> exists i :: LosesKey(s.events, key, i)
    {
      LostIff(s.events, key);
    }
  }

  /** All that was logged replays to the live map and the lost keys. */
  lemma LiveIsReplay(ops: seq<Op>)
    ensures var s := Run(ops);
            && Legal(s.events) && s.data == LiveAfter(s.events)
            && ReplayOn(map[], AllRecords(s)) == ApplyWrites(map[], Logged(s.events))
            && ReplayOn(Base(s), s.wal.recs) == ReplayOn(map[], AllRecords(s))
            && s.data == ReplayOn(map[], AllRecords(s)) - Lost(s.events)
            && Lost(s.events) <= ReplayOn(map[], AllRecords(s)).Keys
  {
    var s := Run(ops);
    RunIsConsistent(ops);
    ReplayConcat(map[], s.forgotten, s.wal.recs);
    ReplayIsApplyWrites(map[], AllRecords(s));
    LiveIsReplayWithoutLost(s.events);
  }

  // ---------------------------------------------------------------- crashes

  /** What recovery makes of a log file with these bytes. */
  function Recover(file: bytes): KeyValues {
    ReplayOn(map[], ReadAll(file))
  }

  /** The number of records that survive a cut of the current file. */
  function Survivors(s: Store, cut: nat): (j: nat)
    ensures j <= |s.wal.recs|
  {
    Readable(s.wal.recs, cut)
  }

  lemma StepKeepsHonest(s: Store, op: Op)
    requires Honest(s.wal) && Sized(op)
    ensures Honest(Step(s, op).wal)
  {
  }

  lemma {:induction false} RunIsHonest(ops: seq<Op>)
    requires AllSized(ops)
    ensures Honest(Run(ops).wal)
  {
    if ops != [] {
      var n := |ops| - 1;
      assert Sized(ops[n]);
      RunIsHonest(ops[..n]);
      StepKeepsHonest(Run(ops[..n]), ops[n]);
    }
  }

  /** A step adds at most one record, at the end; compaction only moves records to the forgotten ones. */
  lemma StepGrowsLog(s: Store, op: Op)
    ensures AllRecords(s) <= AllRecords(Step(s, op))
    ensures |AllRecords(Step(s, op))| <= |AllRecords(s)| + 1
    ensures s.events <= Step(s, op).events
  {
    var t := Step(s, op);
    if op.CompactOp? {
      assert t.wal.recs == [];
      assert AllRecords(t) == AllRecords(s);
    } else {
      StepGrowsFile(s, op);
      Associative(s.forgotten, s.wal.recs, t.wal.recs[|s.wal.recs|..]);
      assert t.wal.recs == s.wal.recs + t.wal.recs[|s.wal.recs|..];
    }
  }

  lemma StepGrowsFile(s: Store, op: Op)
    requires !IsCompact(op)
    ensures s.wal.recs <= Step(s, op).wal.recs && |Step(s, op).wal.recs| <= |s.wal.recs| + 1
    ensures Step(s, op).forgotten == s.forgotten
  {
  }

  /** Each length the log passed through is the length it had after some prefix of the run. */
  lemma {:induction false} MomentOfRecord(ops: seq<Op>, j: nat) returns (i: nat)
    requires j <= |AllRecords(Run(ops))|
    ensures i <= |ops| && AllRecords(Run(ops[..i])) == AllRecords(Run(ops))[..j]
  {
    if |AllRecords(Run(ops))| == j {
      i := |ops|;
      assert ops[..i] == ops;
    } else {
      var n := |ops| - 1;
      StepGrowsLog(Run(ops[..n]), ops[n]);
      i := MomentOfRecord(ops[..n], j);
      assert ops[..n][..i] == ops[..i];
    }
  }

  lemma {:induction false} PastIsPrefix(ops: seq<Op>, i: nat)
    requires i <= |ops|
    ensures AllRecords(Run(ops[..i])) <= AllRecords(Run(ops))
    ensures Run(ops[..i]).events <= Run(ops).events
  {
    if i == |ops| {
      assert ops[..i] == ops;
    } else {
      var n := |ops| - 1;
      PastIsPrefix(ops[..n], i);
      assert ops[..n][..i] == ops[..i];
      StepGrowsLog(Run(ops[..n]), ops[n]);
    }
  }

  /** The replay of the first records, the forgotten ones included, is a replay over the base. */
  lemma ReplayOverBase(s: Store, j: nat)
    requires j <= |s.wal.recs|
    ensures ReplayOn(map[], AllRecords(s)[..|s.forgotten| + j]) == ReplayOn(Base(s), s.wal.recs[..j])
  {
    assert AllRecords(s)[..|s.forgotten| + j] == s.forgotten + s.wal.recs[..j];
    ReplayConcat(map[], s.forgotten, s.wal.recs[..j]);
  }

  /**
   At this moment the log held the forgotten records and `j` more, and the live map was `m` without
   the keys lost by then.
   */
  ghost predicate LiveAtMoment(ops: seq<Op>, i: nat, forgotten: nat, j: nat, m: KeyValues) {
    && i <= |ops|
    && |AllRecords(Run(ops[..i]))| == forgotten + j
    && Run(ops[..i]).data == m - Lost(Run(ops[..i]).events)
  }

  /**
   Cut the log file of any run, compactions included, at any byte, whatever appends failed or tore.
   What is read back is the first j records of the file. Replayed over the base, they give the map
   that was live when those records had been logged, except for the keys lost by then. Recovery,
   which starts from nothing, gives that replay if and only if the j records touch all of the base.
   */
  lemma CrashRecovery(ops: seq<Op>, cut: nat)
    requires AllSized(ops) && cut <= |Run(ops).wal.file|
    ensures var s := Run(ops);
            var read := ReadAll(s.wal.file[..cut]);
            && read == s.wal.recs[..Survivors(s, cut)]
            && (exists i: nat :: LiveAtMoment(ops, i, |s.forgotten|, Survivors(s, cut), ReplayOn(Base(s), read)))
            && (Recover(s.wal.file[..cut]) == ReplayOn(Base(s), read)
                <==> forall key | key in Base(s) :: !Untouched(read, key))
  {
    var s := Run(ops);
    var j := Survivors(s, cut);
    RunIsConsistent(ops);
    RunIsHonest(ops);
    ReadCutFile(s.wal, cut);
    var i := MomentOfRecord(ops, |s.forgotten| + j);
    LiveIsReplay(ops[..i]);
    ReplayOverBase(s, j);
    assert LiveAtMoment(ops, i, |s.forgotten|, j, ReplayOn(Base(s), s.wal.recs[..j]));
    RecoveryAfterCompactionIff(Base(s), s.wal.recs[..j]);
  }

  /** No PUT was refused by the log. */
  ghost predicate NoFailedPut(events: seq<Event>) {
    forall e | e in events && e.PutEvent? :: e.logged
  }

  /**
   If no PUT failed, it is exactly the map that was live at every moment when the log held those
   records. j counts the whole frames within the cut when every record is within the reader's
   limit, and never decreases with the cut.
   */
  lemma CrashRecoveryExact(ops: seq<Op>, cut: nat, later: nat, i: nat)
    requires AllSized(ops) && NoFailedPut(Run(ops).events)
    requires cut <= later <= |Run(ops).wal.file|
    requires i <= |ops| && |AllRecords(Run(ops[..i]))| == |Run(ops).forgotten| + Survivors(Run(ops), cut)
    ensures Run(ops[..i]).data == ReplayOn(Base(Run(ops)), ReadAll(Run(ops).wal.file[..cut]))
    ensures Run(ops).forgotten == [] ==> Run(ops[..i]).data == Recover(Run(ops).wal.file[..cut])
    ensures AllFit(Run(ops).wal.recs) ==> Survivors(Run(ops), cut) == WholeFrames(Run(ops).wal.recs, cut)
    ensures Survivors(Run(ops), cut) <= Survivors(Run(ops), later)
  {
    var s := Run(ops);
    CrashRecovery(ops, cut);
    PastIsPrefix(ops, i);
    var past := Run(ops[..i]);
    assert NoFailedPut(past.events);
    NothingLost(past.events);
    LiveIsReplay(ops[..i]);
    PastReplays(s, past, Survivors(s, cut));
    WholeFramesMonotone(s.wal.recs, cut, later);
  }

  lemma PastReplays(s: Store, past: Store, j: nat)
    requires AllRecords(past) <= AllRecords(s) && |AllRecords(past)| == |s.forgotten| + j && j <= |s.wal.recs|
    ensures ReplayOn(map[], AllRecords(past)) == ReplayOn(Base(s), s.wal.recs[..j])
  {
    assert AllRecords(past) == AllRecords(s)[..|s.forgotten| + j];
    ReplayOverBase(s, j);
  }

  /** Without compaction nothing is forgotten, and the base is empty. */
  lemma {:induction false} NothingForgotten(ops: seq<Op>)
    requires forall op | op in ops :: !IsCompact(op)
    ensures Run(ops).forgotten == []
  {
    if ops != [] {
      var n := |ops| - 1;
      NothingForgotten(ops[..n]);
      StepGrowsFile(Run(ops[..n]), ops[n]);
    }
  }

  /** So in a run without compaction and without failed PUTs, recovery alone gives that live map. */
  lemma CrashRecoveryWithoutCompaction(ops: seq<Op>, cut: nat, i: nat)
    requires AllSized(ops) && NoFailedPut(Run(ops).events)
    requires forall op | op in ops :: !IsCompact(op)
    requires cut <= |Run(ops).wal.file|
    requires i <= |ops| && |Run(ops[..i]).wal.recs| == Survivors(Run(ops), cut)
    ensures Run(ops[..i]).data == Recover(Run(ops).wal.file[..cut])
  {
    NothingForgotten(ops);
    NothingForgotten(ops[..i]);
    CrashRecoveryExact(ops, cut, cut, i);
  }

  /**
   Compaction keeps no snapshot. Recovering the current file of any run gives the live map if and
   only if every key of the base not touched since is lost, and no lost key was touched since. It
   gives the replay of the whole history if and only if every key of the base was touched since.
   */
  lemma RecoveryAfterCompaction(ops: seq<Op>)
    requires AllSized(ops) && AllFit(Run(ops).wal.recs)
    ensures var s := Run(ops);
            && (Recover(s.wal.file) == s.data
                <==> && (forall key | key in Base(s) && Untouched(s.wal.recs, key) :: key in Lost(s.events))
                     && (forall key | key in Lost(s.events) :: Untouched(s.wal.recs, key)))
            && (Recover(s.wal.file) == ReplayOn(map[], AllRecords(s))
                <==> forall key | key in Base(s) :: !Untouched(s.wal.recs, key))
  {
    var s := Run(ops);
    RunIsConsistent(ops);
    RunIsHonest(ops);
    ReadWholeFileIff(s.wal);
    LiveIsReplay(ops);
    RecoveryIsLiveIff(Base(s), s.wal.recs, Lost(s.events));
    RecoveryAfterCompactionIff(Base(s), s.wal.recs);
  }

  // ---------------------------------------------------------------- where recovery and the live map part

  const LOGGED: Io := Io(1, Wrote)
  const REFUSED: Io := Io(1, Threw)

  const OVERWRITE_REFUSED: seq<Op> := [PutOp(1, [1], [2], LOGGED), PutOp(1, [1], [3], REFUSED)]

  /** A PUT that cannot be logged loses the key: it is gone from the live map and comes back in recovery. */
  lemma RefusedOverwriteLosesKey()
    ensures var s := Run(OVERWRITE_REFUSED);
            && [1] in Lost(s.events)
            && s.data == map[]
            && Recover(s.wal.file) == map[[1] := [2]]
  {
    var first := Stamped(PutRecord(1, [1], [2]), LOGGED.now);
    RunOne([], OVERWRITE_REFUSED[0]);
    RunOne(OVERWRITE_REFUSED[..1], OVERWRITE_REFUSED[1]);
    assert [] + [OVERWRITE_REFUSED[0]] == OVERWRITE_REFUSED[..1];
    assert OVERWRITE_REFUSED[..1] + [OVERWRITE_REFUSED[1]] == OVERWRITE_REFUSED;
    var s, before := Run(OVERWRITE_REFUSED), Run(OVERWRITE_REFUSED[..1]);
    assert s.wal.file == [] + Frame(first) == Frame(first);
    OneRecordRecovers(s.wal, first);
    assert Recover(s.wal.file) == Apply(map[], first) == map[[1] := [2]];
    LiveIsReplay(OVERWRITE_REFUSED[..1]);
    assert s.events == before.events + [PutEvent(1, [1], [3], false)];
    SnocParts(before.events, PutEvent(1, [1], [3], false));
    assert before.data == map[[1] := [2]];
    assert [1] in Lost(s.events);
    assert s.data == map[];
  }

  lemma OneRecordRecovers(w: Wal, r: WALRecord)
    requires w.file == Frame(r) && Fits(r)
    ensures Recover(w.file) == Apply(map[], r)
  {
    FramesOne(r);
    ReadBackIff([r]);
    var one := [r];
    assert one[..|one| - 1] == [];
    assert ReplayOn(map[], one) == Apply(ReplayOn(map[], []), r);
  }

  const PUT_THEN_COMPACT: seq<Op> := [PutOp(1, [1], [2], LOGGED), CompactOp(true)]

  lemma CompactionEmptiesTheLog(s: Store)
    ensures var t := Step(s, CompactOp(true));
            t.data == s.data && Recover(t.wal.file) == map[]
  {
    assert ReadAll([]) == [];
  }

  lemma OnePut(op: Op)
    requires op == PutOp(1, [1], [2], LOGGED)
    ensures Run([op]).data == map[[1] := [2]]
  {
    RunOne([], op);
    assert [] + [op] == [op];
  }

  /** A key that was alive at the compaction and not touched since is not recovered. */
  lemma CompactionForgetsKey()
    ensures var s := Run(PUT_THEN_COMPACT);
            s.data == map[[1] := [2]] && Recover(s.wal.file) == map[]
  {
    var put := PutOp(1, [1], [2], LOGGED);
    OnePut(put);
    RunOne([put], CompactOp(true));
    assert [put] + [CompactOp(true)] == PUT_THEN_COMPACT;
    CompactionEmptiesTheLog(Run([put]));
  }
}
