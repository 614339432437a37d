/**
 Transactions interleaved one lock operation, map access or log append at a time. A reader/writer
 lock guards the live map; a mutex inside the log guards appends; COMMIT is appended without
 the map's lock.
 */
module Transactions {
  import opened Bytes
  import opened WalRecord
  import opened WalStream
  import opened LogFile
  import opened Replay
  import opened RangeScan
  import opened History
  import opened Database

  datatype Call = ReadKey(key: bytes) | ReadRange(start: bytes, end: bytes, limit: nat)

  datatype Change = SetTo(key: bytes, value: bytes) | Erase(key: bytes)

  /** Where a PUT or DELETE stands: `ok` is what the append returned. */
  datatype Stage = Entered | Mutated | Logging | Appended(ok: bool) | Released(ok: bool) | Undone

  /**
   Where a transaction's thread stands. `since` is the number of events when the call started,
   `at` the index of the call's own event, `kept` the old value held for undoing a DELETE.
   */
  datatype Pc =
    | Idle
    | Reading(call: Call, since: nat)
    | Answered(answer: Event, since: nat, at: nat)
    | Writing(change: Change, stage: Stage, kept: bytes, since: nat, at: nat)
    | Missing(key: bytes, since: nat, at: nat)
    | Committing
    | CommitLogging
    | CommitAppended
    | Unknown
  {
    predicate Reads() {
      Reading? || Answered?
    }

    predicate Changes() {
      Writing? || Missing?
    }

    predicate HoldsWal() {
      CommitLogging? || CommitAppended? || (Writing? && (stage.Logging? || stage.Appended?))
    }

    predicate InStage(stage: Stage) {
      Writing? && this.stage == stage
    }

    /** The call has taken effect and has yet to return. */
    predicate TookEffect() {
      Answered? || Missing? || (Writing? && (stage.Appended? || stage.Released? || stage.Undone?))
    }

    /** The map has been changed and the change is neither logged nor undone. */
    predicate Unlogged() {
      Writing? && (stage.Mutated? || stage.Logging?
                   || (stage.Appended? && !stage.ok) || (stage.Released? && !stage.ok))
    }

    predicate InCall() {
      Reads() || Changes()
    }
  }

  datatype Txn = Txn(pc: Pc, hasWrites: bool)

  datatype WalLock = Free | HeldBy(id: uint64) | HeldByAdmin

  /** A call that returned: it started after `since` events, is event `at`, and was back by `until`. */
  datatype Completed = Completed(event: Event, since: nat, at: nat, until: nat)

  /**
   `log` is every record ever appended; the current file holds those from `fileStart` on.
   `events`, `done` and `issued` are history.
   */
  datatype State = State(
    data: KeyValues,
    readers: set<uint64>,
    writer: Option<uint64>,
    walLock: WalLock,
    nextId: nat,
    txns: map<uint64, Txn>,
    log: seq<WALRecord>,
    fileStart: nat,
    events: seq<Event>,
    done: seq<Completed>,
    issued: seq<uint64>)

  const INIT: State := State(map[], {}, None, Free, 1, map[], [], 0, [], [], [])

  datatype Action =
    | Begin
    | EnterRead(id: uint64, call: Call)
    | Read(id: uint64, found: Pairs)
    | LeaveRead(id: uint64)
    | EnterWrite(id: uint64, change: Change)
    | Mutate(id: uint64)
    | LockWal(id: uint64)
    | AppendChange(id: uint64, ok: bool, now: uint64)
    | UnlockWal(id: uint64)
    | Undo(id: uint64)
    | LeaveWrite(id: uint64)
    | Commit(id: uint64)
    | CommitLockWal(id: uint64)
    | AppendCommit(id: uint64, ok: bool, now: uint64)
    | CommitUnlockWal(id: uint64)
    | AdminLockWal
    | AdminCheckpoint(name: bytes, ok: bool, now: uint64)
    | AdminTruncate
    | AdminUnlockWal

  function Changed(m: KeyValues, change: Change): KeyValues {
    match change
    case SetTo(key, value) => m[key := value]
    case Erase(key) => m - {key}
  }

  /** A failed PUT erases its key; a failed DELETE puts the old value back. */
  function UndoneMap(m: KeyValues, change: Change, kept: bytes): KeyValues {
    match change
    case SetTo(key, _) => m - {key}
    case Erase(key) => m[key := kept]
  }

  function RecordOf(id: uint64, change: Change): WALRecord {
    match change
    case SetTo(key, value) => PutRecord(id, key, value)
    case Erase(key) => DeleteRecord(id, key)
  }

  function EventOf(id: uint64, change: Change, ok: bool): Event {
    match change
    case SetTo(key, value) => PutEvent(id, key, value, ok)
    case Erase(key) => DelEvent(id, key, if ok then Deleted else DeleteFailed)
  }

  /** What the call is about to return, from what its own thread knows. */
  function Returning(id: uint64, pc: Pc): Event
    requires pc.TookEffect()
  {
    match pc
    case Answered(answer, _, _) => answer
    case Missing(key, _, _) => DelEvent(id, key, Missed)
    case Writing(change, stage, _, _, _) => EventOf(id, change, !stage.Undone? && stage.ok)
  }

  /** Where a transaction stands; `Unknown` if it was never begun. */
  function PcOf(s: State, id: uint64): Pc {
    if id in s.txns then s.txns[id].pc else Unknown
  }

  ghost predicate Enabled(s: State, a: Action) {
    match a
    case Begin => s.nextId < TWO_64
    case EnterRead(id, _) => PcOf(s, id).Idle? && s.writer == None
    case Read(id, found) =>
      && PcOf(s, id).Reading?
      && var call := s.txns[id].pc.call;
         call.ReadRange? ==> IsScan(s.data, call.start, call.end, call.limit, found)
    case LeaveRead(id) => PcOf(s, id).Answered?
    case EnterWrite(id, _) => PcOf(s, id).Idle? && s.writer == None && s.readers == {}
    case Mutate(id) => PcOf(s, id).InStage(Entered)
    case LockWal(id) => PcOf(s, id).InStage(Mutated) && s.walLock == Free
    case AppendChange(id, _, _) => PcOf(s, id).InStage(Logging)
    case UnlockWal(id) => PcOf(s, id).Writing? && PcOf(s, id).stage.Appended?
    case Undo(id) => PcOf(s, id).InStage(Released(false))
    case LeaveWrite(id) => PcOf(s, id).Missing? || PcOf(s, id).InStage(Released(true)) || PcOf(s, id).InStage(Undone)
    case Commit(id) => PcOf(s, id).Idle?
    case CommitLockWal(id) => PcOf(s, id).Committing? && s.walLock == Free
    case AppendCommit(id, _, _) => PcOf(s, id).CommitLogging?
    case CommitUnlockWal(id) => PcOf(s, id).CommitAppended?
    case AdminLockWal => s.walLock == Free
    case AdminCheckpoint(_, _, _) => s.walLock == HeldByAdmin
    case AdminTruncate => s.walLock == HeldByAdmin
    case AdminUnlockWal => s.walLock == HeldByAdmin
  }

  function Moved(s: State, id: uint64, pc: Pc): State
    requires id in s.txns
  {
    s.(txns := s.txns[id := s.txns[id].(pc := pc)])
  }

  function Flagged(s: State, id: uint64, on: bool): State
    requires id in s.txns
  {
    s.(txns := s.txns[id := s.txns[id].(hasWrites := on)])
  }

  function WithEvent(s: State, e: Event): State {
    s.(events := s.events + [e])
  }

  function WithRecord(s: State, r: WALRecord, ok: bool, now: uint64): State {
    if ok then s.(log := s.log + [Stamped(r, now)]) else s
  }

  function Answer(data: KeyValues, id: uint64, call: Call, found: Pairs): Event {
    match call
    case ReadKey(key) => GetEvent(id, key, ValueOf(data, key))
    case ReadRange(start, end, limit) => ScanEvent(id, start, end, limit, found)
  }

  function Finish(s: State, id: uint64, pc: Pc): State
    requires id in s.txns && pc.TookEffect()
  {
    var back := Completed(Returning(id, pc), pc.since, pc.at, |s.events|);
    Moved(s, id, Idle).(done := s.done + [back])
  }

  function DoMutate(s: State, id: uint64): State
    requires PcOf(s, id).Writing?
  {
    var pc := s.txns[id].pc;
    if pc.change.Erase? && pc.change.key !in s.data then
      WithEvent(Moved(s, id, Missing(pc.change.key, pc.since, |s.events|)), DelEvent(id, pc.change.key, Missed))
    else
      var kept := ValueOf(s.data, pc.change.key);
      Flagged(Moved(s, id, pc.(stage := Mutated, kept := kept)), id, true).(data := Changed(s.data, pc.change))
  }

  function DoAppend(s: State, id: uint64, ok: bool, now: uint64): State
    requires PcOf(s, id).Writing?
  {
    var pc := s.txns[id].pc;
    var logged := WithRecord(s, RecordOf(id, pc.change), ok, now);
    WithEvent(Moved(logged, id, pc.(stage := Appended(ok), at := |s.events|)), EventOf(id, pc.change, ok))
  }

  function DoUndo(s: State, id: uint64): State
    requires PcOf(s, id).Writing?
  {
    var pc := s.txns[id].pc;
    Flagged(Moved(s, id, pc.(stage := Undone)), id, false).(data := UndoneMap(s.data, pc.change, pc.kept))
  }

  ghost function Do(s: State, a: Action): State
    requires Enabled(s, a)
  {
    match a
    case Begin =>
      s.(nextId := s.nextId + 1, txns := s.txns[s.nextId := Txn(Idle, false)], issued := s.issued + [s.nextId])
    case EnterRead(id, call) => Moved(s, id, Reading(call, |s.events|)).(readers := s.readers + {id})
    case Read(id, found) =>
      var pc := s.txns[id].pc;
      var e := Answer(s.data, id, pc.call, found);
      WithEvent(Moved(s, id, Answered(e, pc.since, |s.events|)), e)
    case LeaveRead(id) => Finish(s, id, s.txns[id].pc).(readers := s.readers - {id})
    case EnterWrite(id, change) =>
      Moved(s, id, Writing(change, Entered, [], |s.events|, 0)).(writer := Some(id))
    case Mutate(id) => DoMutate(s, id)
    case LockWal(id) => Moved(s, id, s.txns[id].pc.(stage := Logging)).(walLock := HeldBy(id))
    case AppendChange(id, ok, now) => DoAppend(s, id, ok, now)
    case UnlockWal(id) =>
      Moved(s, id, s.txns[id].pc.(stage := Released(s.txns[id].pc.stage.ok))).(walLock := Free)
    case Undo(id) => DoUndo(s, id)
    case LeaveWrite(id) => Finish(s, id, s.txns[id].pc).(writer := None)
    case Commit(id) => if s.txns[id].hasWrites then Moved(s, id, Committing) else s
    case CommitLockWal(id) => Moved(s, id, CommitLogging).(walLock := HeldBy(id))
    case AppendCommit(id, ok, now) => Moved(WithRecord(s, CommitRecord(id), ok, now), id, CommitAppended)
    case CommitUnlockWal(id) => Moved(s, id, Idle).(walLock := Free)
    case AdminLockWal => s.(walLock := HeldByAdmin)
    case AdminCheckpoint(name, ok, now) => WithRecord(s, CheckpointRecord(name, now), ok, now)
    case AdminTruncate => s.(fileStart := |s.log|)
    case AdminUnlockWal => s.(walLock := Free)
  }

  ghost function Then(s: Option<State>, a: Action): Option<State> {
    if s.Some? && Enabled(s.value, a) then Some(Do(s.value, a)) else None
  }

  /** The state a schedule of actions leads to, if every action was possible when it came. */
  ghost function Exec(actions: seq<Action>): Option<State> {
    if actions == [] then Some(INIT) else Then(Exec(actions[..|actions| - 1]), actions[|actions| - 1])
  }

  // ---------------------------------------------------------------- locks

  ghost predicate Locks(s: State) {
    && (forall id :: id in s.readers <==> id in s.txns && s.txns[id].pc.Reads())
    && (forall id | id in s.txns && s.txns[id].pc.Changes() :: s.writer == Some(id))
    && (s.writer.Some? ==>
          s.writer.value in s.txns && s.txns[s.writer.value].pc.Changes() && s.readers == {})
    && (forall id | id in s.txns :: s.txns[id].pc.HoldsWal() <==> s.walLock == HeldBy(id))
    && (s.walLock.HeldBy? ==> s.walLock.id in s.txns)
    && (forall id | id in s.txns :: id < s.nextId)
  }

  /** Only transaction `id` moved, and the locks follow from where it now stands. */
  ghost predicate OneMoved(s: State, t: State, id: uint64) {
    && id in s.txns && t.txns.Keys == s.txns.Keys && t.nextId == s.nextId
    && (forall other | other in s.txns && other != id :: t.txns[other] == s.txns[other])
    && var pc := t.txns[id].pc;
       && t.readers == (if pc.Reads() then s.readers + {id} else s.readers - {id})
       && (if pc.Changes() then t.writer == Some(id) && s.writer in {None, Some(id)} && t.readers == {}
           else t.writer == (if s.writer == Some(id) then None else s.writer)
                && (t.writer.Some? ==> !pc.Reads()))
       && (if pc.HoldsWal() then t.walLock == HeldBy(id) && s.walLock in {Free, HeldBy(id)}
           else t.walLock == if s.walLock == HeldBy(id) then Free else s.walLock)
  }

  lemma LocksAfterMove(s: State, t: State, id: uint64)
    requires Locks(s) && OneMoved(s, t, id)
    ensures Locks(t)
  {
  }

  predicate ReadAction(a: Action) {
    a.EnterRead? || a.Read? || a.LeaveRead?
  }

  predicate WriteAction(a: Action) {
    a.EnterWrite? || a.Mutate? || a.LockWal? || a.AppendChange? || a.UnlockWal? || a.Undo? || a.LeaveWrite?
  }

  predicate CommitAction(a: Action) {
    a.Commit? || a.CommitLockWal? || a.AppendCommit? || a.CommitUnlockWal?
  }

  lemma ReaderMoves(s: State, a: Action)
    requires Locks(s) && Enabled(s, a) && ReadAction(a)
    ensures OneMoved(s, Do(s, a), a.id)
  {
  }

  lemma WriterEntersOrLeaves(s: State, a: Action)
    requires Locks(s) && Enabled(s, a) && (a.EnterWrite? || a.LeaveWrite?)
    ensures OneMoved(s, Do(s, a), a.id)
  {
  }

  lemma WriterChangesMap(s: State, a: Action)
    requires Locks(s) && Enabled(s, a) && (a.Mutate? || a.Undo?)
    ensures OneMoved(s, Do(s, a), a.id)
  {
  }

  lemma WriterLogs(s: State, a: Action)
    requires Locks(s) && Enabled(s, a) && (a.LockWal? || a.AppendChange? || a.UnlockWal?)
    ensures OneMoved(s, Do(s, a), a.id)
  {
  }

  lemma WriterMoves(s: State, a: Action)
    requires Locks(s) && Enabled(s, a) && WriteAction(a)
    ensures OneMoved(s, Do(s, a), a.id)
  {
    if a.EnterWrite? || a.LeaveWrite? {
      WriterEntersOrLeaves(s, a);
    } else if a.Mutate? || a.Undo? {
      WriterChangesMap(s, a);
    } else {
      WriterLogs(s, a);
    }
  }

  lemma CommitterLogs(s: State, a: Action)
    requires Locks(s) && Enabled(s, a) && (a.AppendCommit? || a.CommitUnlockWal?)
    ensures OneMoved(s, Do(s, a), a.id)
  {
  }

  lemma CommitterMoves(s: State, a: Action)
    requires Locks(s) && Enabled(s, a) && CommitAction(a)
    ensures OneMoved(s, Do(s, a), a.id)
  {
    if a.AppendCommit? || a.CommitUnlockWal? {
      CommitterLogs(s, a);
    }
  }

  lemma LocksKept(s: State, a: Action)
    requires Locks(s) && Enabled(s, a)
    ensures Locks(Do(s, a))
  {
    if ReadAction(a) {
      ReaderMoves(s, a);
      LocksAfterMove(s, Do(s, a), a.id);
    } else if WriteAction(a) {
      WriterMoves(s, a);
      LocksAfterMove(s, Do(s, a), a.id);
    } else if CommitAction(a) {
      CommitterMoves(s, a);
      LocksAfterMove(s, Do(s, a), a.id);
    }
  }

  // ---------------------------------------------------------------- the live map

  /** The live map as the events have it, plus the writer's unlogged change. */
  ghost predicate DataMatches(s: State) {
    var live := LiveAfter(s.events);
    if s.writer.None? then s.data == live
    else
      s.writer.value in s.txns &&
      var pc := s.txns[s.writer.value].pc;
      if !pc.Unlogged() then s.data == live
      else
        && s.data == Changed(live, pc.change)
        && (pc.change.Erase? ==> pc.change.key in live && live[pc.change.key] == pc.kept)
        && (pc.change.SetTo? && pc.TookEffect() ==> pc.change.key !in live)
  }

  ghost predicate HistoryMatches(s: State) {
    && Legal(s.events)
    && Writes(s.log) == Logged(s.events)
    && s.fileStart <= |s.log|
  }

  lemma LoggedRecord(log: seq<WALRecord>, r: WALRecord, now: uint64)
    ensures Writes(log + [Stamped(r, now)]) == Writes(log) + WriteOf(r)
  {
    WritesConcat(log, [Stamped(r, now)]);
    assert Writes([Stamped(r, now)]) == Writes([]) + WriteOf(Stamped(r, now));
  }

  lemma EventTaken(events: seq<Event>, e: Event)
    requires Legal(events) && Correct(LiveAfter(events), e)
    ensures Legal(events + [e])
    ensures LiveAfter(events + [e]) == After(LiveAfter(events), e)
    ensures Logged(events + [e]) == Logged(events) + WriteOfEvent(e)
  {
    LegalSnoc(events, e);
    SnocParts(events, e);
  }

  /** Nothing is read, changed or logged as a write, and the writer's unlogged change stays what it is. */
  ghost predicate Quiet(s: State, t: State) {
    && t.data == s.data && t.events == s.events
    && Writes(t.log) == Writes(s.log) && t.fileStart <= |t.log|
    && (t.writer != s.writer ==>
          && (s.writer.Some? ==> !PcOf(s, s.writer.value).Unlogged())
          && (t.writer.Some? ==> t.writer.value in t.txns && !PcOf(t, t.writer.value).Unlogged()))
    && (t.writer == s.writer && s.writer.Some? ==>
          var p, q := PcOf(s, s.writer.value), PcOf(t, s.writer.value);
          && s.writer.value in t.txns
          && p.Unlogged() == q.Unlogged()
          && (p.Unlogged() ==> p.change == q.change && p.kept == q.kept && p.TookEffect() == q.TookEffect()))
  }

  lemma QuietKeepsMap(s: State, t: State)
    requires DataMatches(s) && HistoryMatches(s) && Quiet(s, t)
    ensures DataMatches(t) && HistoryMatches(t)
  {
  }

  predicate Loud(a: Action) {
    a.Read? || a.Mutate? || a.AppendChange? || a.Undo?
  }

  lemma QuietEntry(s: State, a: Action)
    requires Locks(s) && HistoryMatches(s) && Enabled(s, a) && (a.EnterRead? || a.LeaveRead? || a.EnterWrite? || a.LeaveWrite?)
    ensures Quiet(s, Do(s, a))
  {
  }

  lemma QuietWalLock(s: State, a: Action)
    requires Locks(s) && HistoryMatches(s) && Enabled(s, a) && (a.LockWal? || a.UnlockWal?)
    ensures Quiet(s, Do(s, a))
  {
  }

  lemma QuietReadOrWrite(s: State, a: Action)
    requires Locks(s) && HistoryMatches(s) && Enabled(s, a) && !Loud(a) && (ReadAction(a) || WriteAction(a))
    ensures Quiet(s, Do(s, a))
  {
    if a.LockWal? || a.UnlockWal? {
      QuietWalLock(s, a);
    } else {
      QuietEntry(s, a);
    }
  }

  lemma QuietCommit(s: State, a: Action)
    requires Locks(s) && HistoryMatches(s) && Enabled(s, a)
    requires a.Commit? || a.CommitLockWal? || a.CommitUnlockWal?
    ensures Quiet(s, Do(s, a))
  {
    assert s.writer != Some(a.id);
  }

  lemma QuietBeginOrAdmin(s: State, a: Action)
    requires Locks(s) && HistoryMatches(s) && Enabled(s, a)
    requires a.Begin? || a.AdminLockWal? || a.AdminTruncate? || a.AdminUnlockWal?
    ensures Quiet(s, Do(s, a))
  {
  }

  lemma QuietCommitRecord(s: State, a: Action)
    requires HistoryMatches(s) && Enabled(s, a) && a.AppendCommit?
    requires s.writer != Some(a.id) && (s.writer.Some? ==> s.writer.value in s.txns)
    ensures Quiet(s, Do(s, a))
  {
    LoggedRecord(s.log, CommitRecord(a.id), a.now);
    assert WriteOf(CommitRecord(a.id)) == [];
    assert Writes(s.log) + [] == Writes(s.log);
  }

  lemma QuietCheckpointRecord(s: State, a: Action)
    requires Locks(s) && HistoryMatches(s) && Enabled(s, a) && a.AdminCheckpoint?
    ensures Quiet(s, Do(s, a))
  {
    LoggedRecord(s.log, CheckpointRecord(a.name, a.now), a.now);
  }

  lemma ReadKeepsMap(s: State, a: Action)
    requires Locks(s) && DataMatches(s) && HistoryMatches(s) && Enabled(s, a) && a.Read?
    ensures DataMatches(Do(s, a)) && HistoryMatches(Do(s, a))
  {
    assert a.id in s.readers;
    EventTaken(s.events, Answer(s.data, a.id, s.txns[a.id].pc.call, a.found));
  }

  lemma MutateKeepsMap(s: State, a: Action)
    requires Locks(s) && DataMatches(s) && HistoryMatches(s) && Enabled(s, a) && a.Mutate?
    ensures DataMatches(Do(s, a)) && HistoryMatches(Do(s, a))
  {
    var change := s.txns[a.id].pc.change;
    assert s.writer == Some(a.id);
    if change.Erase? && change.key !in s.data {
      EventTaken(s.events, DelEvent(a.id, change.key, Missed));
    }
  }

  lemma AppendKeepsHistory(s: State, id: uint64, ok: bool, now: uint64)
    requires HistoryMatches(s) && PcOf(s, id).InStage(Logging)
    requires Correct(LiveAfter(s.events), EventOf(id, s.txns[id].pc.change, ok))
    ensures HistoryMatches(DoAppend(s, id, ok, now))
    ensures LiveAfter(DoAppend(s, id, ok, now).events)
         == After(LiveAfter(s.events), EventOf(id, s.txns[id].pc.change, ok))
  {
    var change := s.txns[id].pc.change;
    var r, e := RecordOf(id, change), EventOf(id, change, ok);
    EventTaken(s.events, e);
    LoggedRecord(s.log, r, now);
    assert WriteOfEvent(e) == if ok then WriteOf(r) else [];
    if !ok {
      assert Logged(s.events) + [] == Logged(s.events);
    }
  }

  /** The map of the sequential history once the writer's change is logged or refused. */
  lemma AppendMatchesLive(live: KeyValues, id: uint64, change: Change, kept: bytes, ok: bool)
    requires change.Erase? ==> change.key in live && live[change.key] == kept
    ensures Correct(live, EventOf(id, change, ok))
    ensures var live' := After(live, EventOf(id, change, ok));
            if ok then Changed(live, change) == live'
            else
              && Changed(live, change) == Changed(live', change)
              && (if change.Erase? then change.key in live' && live'[change.key] == kept else change.key !in live')
  {
  }

  /** The writer's change is logged or refused: the map stays, the history takes the event. */
  ghost predicate Resolved(s: State, t: State, id: uint64, ok: bool)
    requires PcOf(s, id).Writing?
  {
    var pc := s.txns[id].pc;
    && t.data == s.data && t.writer == s.writer && id in t.txns
    && t.txns[id].pc == pc.(stage := Appended(ok), at := |s.events|)
    && LiveAfter(t.events) == After(LiveAfter(s.events), EventOf(id, pc.change, ok))
  }

  lemma ResolvedKeepsMap(s: State, t: State, id: uint64, ok: bool)
    requires DataMatches(s) && PcOf(s, id).InStage(Logging) && s.writer == Some(id) && Resolved(s, t, id, ok)
    ensures DataMatches(t)
  {
    var pc := s.txns[id].pc;
    AppendMatchesLive(LiveAfter(s.events), id, pc.change, pc.kept, ok);
  }

  lemma AppendKeepsMap(s: State, id: uint64, ok: bool, now: uint64)
    requires DataMatches(s) && HistoryMatches(s) && PcOf(s, id).InStage(Logging) && s.writer == Some(id)
    ensures DataMatches(DoAppend(s, id, ok, now)) && HistoryMatches(DoAppend(s, id, ok, now))
  {
    var pc := s.txns[id].pc;
    AppendMatchesLive(LiveAfter(s.events), id, pc.change, pc.kept, ok);
    AppendKeepsHistory(s, id, ok, now);
    ResolvedKeepsMap(s, DoAppend(s, id, ok, now), id, ok);
  }

  /** Undoing the change gives back the map without it. */
  lemma UndoMatchesLive(live: KeyValues, change: Change, kept: bytes)
    requires if change.Erase? then change.key in live && live[change.key] == kept else change.key !in live
    ensures UndoneMap(Changed(live, change), change, kept) == live
  {
  }

  lemma UndoKeepsMap(s: State, id: uint64)
    requires DataMatches(s) && HistoryMatches(s) && PcOf(s, id).InStage(Released(false)) && s.writer == Some(id)
    ensures DataMatches(DoUndo(s, id)) && HistoryMatches(DoUndo(s, id))
  {
    var pc := s.txns[id].pc;
    UndoMatchesLive(LiveAfter(s.events), pc.change, pc.kept);
    assert DoUndo(s, id).txns[id].pc == pc.(stage := Undone);
  }

  lemma MapKept(s: State, a: Action)
    requires Locks(s) && DataMatches(s) && HistoryMatches(s) && Enabled(s, a)
    ensures DataMatches(Do(s, a)) && HistoryMatches(Do(s, a))
  {
    if a.Read? {
      ReadKeepsMap(s, a);
    } else if a.Mutate? {
      MutateKeepsMap(s, a);
    } else if a.AppendChange? {
      AppendKeepsMap(s, a.id, a.ok, a.now);
    } else if a.Undo? {
      UndoKeepsMap(s, a.id);
    } else {
      if ReadAction(a) || WriteAction(a) {
        QuietReadOrWrite(s, a);
      } else if a.AppendCommit? {
        QuietCommitRecord(s, a);
      } else if a.AdminCheckpoint? {
        QuietCheckpointRecord(s, a);
      } else if CommitAction(a) {
        QuietCommit(s, a);
      } else {
        QuietBeginOrAdmin(s, a);
      }
      QuietKeepsMap(s, Do(s, a));
    }
  }

  // ---------------------------------------------------------------- commit discipline

  ghost predicate WroteBefore(log: seq<WALRecord>, end: nat, id: uint64) {
    exists j: nat :: j < end && j < |log| && WritesAs(log[j], id)
  }

  ghost predicate CommitsFollowWrites(log: seq<WALRecord>) {
    forall i: nat | i < |log| && log[i].rtype == COMMIT :: WroteBefore(log, i, log[i].txnId)
  }

  ghost predicate FlagsMeanWrites(s: State) {
    && (forall id | id in s.txns && s.txns[id].hasWrites && !s.txns[id].pc.Unlogged() ::
          WroteBefore(s.log, |s.log|, id))
    && (forall id | id in s.txns && (s.txns[id].pc.Committing? || s.txns[id].pc.CommitLogging?) ::
          s.txns[id].hasWrites)
  }

  lemma LogGrows(log: seq<WALRecord>, r: WALRecord)
    requires CommitsFollowWrites(log) && (r.rtype == COMMIT ==> WroteBefore(log, |log|, r.txnId))
    ensures CommitsFollowWrites(log + [r])
    ensures forall id: uint64, end: nat | WroteBefore(log, end, id) && end <= |log| :: WroteBefore(log + [r], end, id)
    ensures forall id :: WroteBefore(log + [r], |log| + 1, id) <==> WroteBefore(log, |log|, id) || WritesAs(r, id)
  {
    var all := log + [r];
    forall id: uint64, end: nat, j: nat | end <= |log| && j < end && WritesAs(log[j], id)
      ensures WroteBefore(all, end, id) && WroteBefore(all, |log| + 1, id)
    {
      assert WritesAs(all[j], id);
    }
    forall id: uint64 | WritesAs(r, id)
      ensures WroteBefore(all, |log| + 1, id)
    {
      assert WritesAs(all[|log|], id);
    }
    forall i: nat | i < |all| && all[i].rtype == COMMIT
      ensures WroteBefore(all, i, all[i].txnId)
    {
      if i < |log| {
        assert WroteBefore(log, i, log[i].txnId);
      }
    }
  }

  /** The record a step adds to the log, if any. */
  function NewRecords(s: State, a: Action): seq<WALRecord> {
    match a
    case AppendChange(id, ok, now) =>
      if ok && PcOf(s, id).Writing? then [Stamped(RecordOf(id, PcOf(s, id).change), now)] else []
    case AppendCommit(id, ok, now) => if ok then [Stamped(CommitRecord(id), now)] else []
    case AdminCheckpoint(name, ok, now) => if ok then [Stamped(CheckpointRecord(name, now), now)] else []
    case _ => []
  }

  lemma StepAddsNewRecords(s: State, a: Action)
    requires Enabled(s, a)
    ensures Do(s, a).log == s.log + NewRecords(s, a)
  {
  }

  lemma CommitsKept(s: State, a: Action)
    requires CommitsFollowWrites(s.log) && FlagsMeanWrites(s) && Enabled(s, a)
    requires forall id | id in s.txns :: id < s.nextId
    ensures CommitsFollowWrites(Do(s, a).log) && FlagsMeanWrites(Do(s, a))
  {
    StepAddsNewRecords(s, a);
    if NewRecords(s, a) == [] {
      assert Do(s, a).log == s.log;
      FlagsKeptWithoutRecord(s, a);
    } else {
      LogGrows(s.log, NewRecords(s, a)[0]);
      FlagsKeptWithRecord(s, a);
    }
  }

  lemma FlagsKeptWithoutRecord(s: State, a: Action)
    requires FlagsMeanWrites(s) && Enabled(s, a) && Do(s, a).log == s.log && NewRecords(s, a) == []
    requires forall id | id in s.txns :: id < s.nextId
    ensures FlagsMeanWrites(Do(s, a))
  {
    if WriteAction(a) {
      WriterFlagsWithoutRecord(s, a);
    }
  }

  lemma WriterFlagsWithoutRecord(s: State, a: Action)
    requires FlagsMeanWrites(s) && Enabled(s, a) && WriteAction(a) && Do(s, a).log == s.log && NewRecords(s, a) == []
    ensures FlagsMeanWrites(Do(s, a))
  {
  }

  lemma FlagsKeptWithRecord(s: State, a: Action)
    requires FlagsMeanWrites(s) && Enabled(s, a) && (a.AppendChange? || a.AppendCommit? || a.AdminCheckpoint?)
    requires forall id | WroteBefore(s.log, |s.log|, id) :: WroteBefore(Do(s, a).log, |Do(s, a).log|, id)
    requires a.AppendChange? && a.ok ==> WroteBefore(Do(s, a).log, |Do(s, a).log|, a.id)
    ensures FlagsMeanWrites(Do(s, a))
  {
  }

  ghost predicate FlagsMatch(s: State) {
    && (forall id | id in s.txns && !s.txns[id].pc.Unlogged() ::
          s.txns[id].hasWrites <==> LastAttempt(s.events, id) == Some(true))
    && (forall id | id in s.txns && s.txns[id].pc.Unlogged() ::
          s.txns[id].hasWrites && (s.txns[id].pc.TookEffect() ==> LastAttempt(s.events, id) == Some(false)))
    && (forall id | id !in s.txns :: LastAttempt(s.events, id) == None)
  }

  /** The event a step adds, if any. */
  function NewEvents(s: State, a: Action): seq<Event> {
    match a
    case Read(id, found) =>
      if PcOf(s, id).Reading? then [Answer(s.data, id, PcOf(s, id).call, found)] else []
    case Mutate(id) =>
      if PcOf(s, id).Writing? && PcOf(s, id).change.Erase? && PcOf(s, id).change.key !in s.data then
        [DelEvent(id, PcOf(s, id).change.key, Missed)]
      else []
    case AppendChange(id, ok, _) =>
      if PcOf(s, id).Writing? then [EventOf(id, PcOf(s, id).change, ok)] else []
    case _ => []
  }

  lemma StepAddsNewEvents(s: State, a: Action)
    requires Enabled(s, a)
    ensures Do(s, a).events == s.events + NewEvents(s, a)
  {
  }

  /** Only the append of a PUT or of a found DELETE is an attempt. */
  lemma AttemptsAfterStep(s: State, a: Action)
    requires Enabled(s, a)
    ensures forall id :: LastAttempt(Do(s, a).events, id)
              == if a.AppendChange? && a.id == id then Some(a.ok) else LastAttempt(s.events, id)
  {
  }

  lemma FlagsKept(s: State, a: Action)
    requires Locks(s) && FlagsMatch(s) && Enabled(s, a)
    ensures FlagsMatch(Do(s, a))
  {
    AttemptsAfterStep(s, a);
    if WriteAction(a) {
      WriterFlagsKept(s, a);
    } else {
      OtherFlagsKept(s, a);
    }
  }

  /** The acting transaction's flag and place still agree with its attempts, and no other's changed. */
  lemma ActorFlagKept(s: State, t: State, id: uint64)
    requires FlagsMatch(s) && id in s.txns && t.txns.Keys == s.txns.Keys
    requires forall other | other in s.txns && other != id :: t.txns[other] == s.txns[other]
    requires forall other | other != id :: LastAttempt(t.events, other) == LastAttempt(s.events, other)
    requires !t.txns[id].pc.Unlogged() ==> (t.txns[id].hasWrites <==> LastAttempt(t.events, id) == Some(true))
    requires t.txns[id].pc.Unlogged() ==>
               t.txns[id].hasWrites && (t.txns[id].pc.TookEffect() ==> LastAttempt(t.events, id) == Some(false))
    ensures FlagsMatch(t)
  {
  }

  lemma WriterFlagsKept(s: State, a: Action)
    requires FlagsMatch(s) && Enabled(s, a) && WriteAction(a)
    requires forall id :: LastAttempt(Do(s, a).events, id)
               == if a.AppendChange? && a.id == id then Some(a.ok) else LastAttempt(s.events, id)
    ensures FlagsMatch(Do(s, a))
  {
    if a.Mutate? || a.AppendChange? || a.Undo? {
      ActorFlagKept(s, Do(s, a), a.id);
    } else {
      OnlyPlaceMoves(s, a);
      ActorFlagKept(s, Do(s, a), a.id);
    }
  }

  lemma OnlyPlaceMoves(s: State, a: Action)
    requires Enabled(s, a) && WriteAction(a) && !(a.Mutate? || a.AppendChange? || a.Undo?)
    ensures a.id in s.txns
    ensures var t := Do(s, a);
            var p, q := s.txns[a.id], t.txns[a.id];
            && t.txns == s.txns[a.id := q]
            && q.hasWrites == p.hasWrites && q.pc.Unlogged() == p.pc.Unlogged()
            && (q.pc.Unlogged() ==> q.pc.TookEffect() == p.pc.TookEffect())
  {
  }

  lemma OtherFlagsKept(s: State, a: Action)
    requires FlagsMatch(s) && Enabled(s, a) && !WriteAction(a)
    requires forall id | id in s.txns :: id < s.nextId
    requires forall id :: LastAttempt(Do(s, a).events, id) == LastAttempt(s.events, id)
    ensures FlagsMatch(Do(s, a))
  {
  }

  // ---------------------------------------------------------------- calls and their events

  /** Calls that returned: each has its own event, inside its interval, and returned that event. */
  ghost predicate DoneMatches(s: State) {
    && (forall i | 0 <= i < |s.done| ::
          var c := s.done[i];
          c.since <= c.at < c.until <= |s.events| && s.events[c.at] == c.event)
    && (forall i, j | 0 <= i < j < |s.done| :: s.done[i].at != s.done[j].at)
  }

  /** Calls under way: once in effect, the call owns an event that no other call owns. */
  ghost predicate CallsMatch(s: State) {
    && (forall id | id in s.txns && s.txns[id].pc.InCall() :: s.txns[id].pc.since <= |s.events|)
    && (forall id | id in s.txns && s.txns[id].pc.TookEffect() ::
          var pc := s.txns[id].pc;
          && pc.since <= pc.at < |s.events|
          && s.events[pc.at] == Returning(id, pc)
          && Returning(id, pc).id == id
          && forall i | 0 <= i < |s.done| :: s.done[i].at != pc.at)
  }

  ghost predicate Owned(s: State, at: nat) {
    || (exists i :: 0 <= i < |s.done| && s.done[i].at == at)
    || (exists id :: id in s.txns && s.txns[id].pc.TookEffect() && s.txns[id].pc.at == at)
  }

  /** Every event belongs to a call. */
  ghost predicate AllOwned(s: State) {
    forall at: nat | at < |s.events| :: Owned(s, at)
  }

  ghost predicate Calls(s: State) {
    DoneMatches(s) && CallsMatch(s) && AllOwned(s)
  }

  ghost predicate OthersStay(s: State, t: State, id: uint64) {
    && id in t.txns
    && (forall other | other != id :: other in t.txns <==> other in s.txns)
    && (forall other | other != id && other in s.txns :: t.txns[other].pc == s.txns[other].pc)
  }

  /** A step that takes no effect and returns from no call. */
  lemma CallStays(s: State, t: State, id: uint64)
    requires Calls(s) && OthersStay(s, t, id) && t.events == s.events && t.done == s.done
    requires PcOf(t, id).InCall() ==> PcOf(t, id).since <= |s.events|
    requires PcOf(t, id).TookEffect() <==> PcOf(s, id).TookEffect()
    requires PcOf(t, id).TookEffect() ==>
               var p, q := PcOf(s, id), PcOf(t, id);
               q.since == p.since && q.at == p.at && Returning(id, q) == Returning(id, p)
    ensures Calls(t)
  {
    forall at: nat | at < |t.events|
      ensures Owned(t, at)
    {
      assert Owned(s, at);
      if other :| other in s.txns && s.txns[other].pc.TookEffect() && s.txns[other].pc.at == at {
        assert t.txns[other].pc.TookEffect() && t.txns[other].pc.at == at;
      }
    }
  }

  /** The step at which a call takes effect. */
  lemma CallTakesEffect(s: State, t: State, id: uint64, e: Event)
    requires Calls(s) && OthersStay(s, t, id) && t.events == s.events + [e] && t.done == s.done
    requires id in s.txns && !s.txns[id].pc.TookEffect() && s.txns[id].pc.InCall()
    requires var q := t.txns[id].pc;
             q.TookEffect() && q.since == s.txns[id].pc.since && q.at == |s.events| && Returning(id, q) == e
    requires e.id == id
    ensures Calls(t)
  {
    forall at: nat | at < |t.events|
      ensures Owned(t, at)
    {
      if at == |s.events| {
        assert t.txns[id].pc.TookEffect() && t.txns[id].pc.at == at;
      } else {
        assert Owned(s, at);
        if other :| other in s.txns && s.txns[other].pc.TookEffect() && s.txns[other].pc.at == at {
          assert t.txns[other].pc.TookEffect() && t.txns[other].pc.at == at;
        }
      }
    }
  }

  /** The step at which a call returns. */
  lemma CallReturns(s: State, t: State, id: uint64)
    requires Calls(s) && OthersStay(s, t, id) && t.events == s.events
    requires id in s.txns && s.txns[id].pc.TookEffect() && t.txns[id].pc.Idle?
    requires var p := s.txns[id].pc;
             t.done == s.done + [Completed(Returning(id, p), p.since, p.at, |s.events|)]
    ensures Calls(t)
  {
    forall at: nat | at < |t.events|
      ensures Owned(t, at)
    {
      assert Owned(s, at);
      if at == s.txns[id].pc.at {
        assert t.done[|s.done|].at == at;
      } else if i :| 0 <= i < |s.done| && s.done[i].at == at {
        assert t.done[i].at == at;
      } else {
        var other :| other in s.txns && s.txns[other].pc.TookEffect() && s.txns[other].pc.at == at;
        assert t.txns[other].pc.TookEffect() && t.txns[other].pc.at == at;
      }
    }
  }

  lemma ReadCallKept(s: State, a: Action)
    requires Calls(s) && Enabled(s, a) && ReadAction(a)
    ensures Calls(Do(s, a))
  {
    var t := Do(s, a);
    match a
    case EnterRead(id, _) => CallStays(s, t, id);
    case Read(id, found) => CallTakesEffect(s, t, id, Answer(s.data, id, s.txns[id].pc.call, found));
    case LeaveRead(id) => CallReturns(s, t, id);
  }

  lemma WriteCallTakesEffect(s: State, a: Action)
    requires Calls(s) && Enabled(s, a)
    requires a.AppendChange? || (a.Mutate? && Do(s, a).txns[a.id].pc.Missing?)
    ensures Calls(Do(s, a))
  {
    if a.AppendChange? {
      CallTakesEffect(s, Do(s, a), a.id, EventOf(a.id, s.txns[a.id].pc.change, a.ok));
    } else {
      CallTakesEffect(s, Do(s, a), a.id, DelEvent(a.id, s.txns[a.id].pc.change.key, Missed));
    }
  }

  lemma WriteCallKept(s: State, a: Action)
    requires Calls(s) && Enabled(s, a) && WriteAction(a)
    ensures Calls(Do(s, a))
  {
    if a.AppendChange? || (a.Mutate? && Do(s, a).txns[a.id].pc.Missing?) {
      WriteCallTakesEffect(s, a);
    } else if a.LeaveWrite? {
      CallReturns(s, Do(s, a), a.id);
    } else {
      CallStays(s, Do(s, a), a.id);
    }
  }

  lemma CallsOutsideKept(s: State, a: Action)
    requires Calls(s) && Enabled(s, a) && (CommitAction(a) || a.Begin?)
    requires forall id | id in s.txns :: id < s.nextId
    ensures Calls(Do(s, a))
  {
    CallStays(s, Do(s, a), if a.Begin? then s.nextId else a.id);
  }

  lemma AdminKeepsCalls(s: State, t: State)
    requires Calls(s) && t.txns == s.txns && t.events == s.events && t.done == s.done
    ensures Calls(t)
  {
    forall at: nat | at < |s.events|
      ensures Owned(t, at)
    {
      assert Owned(s, at);
    }
  }

  lemma CallsKept(s: State, a: Action)
    requires Calls(s) && Enabled(s, a)
    requires forall id | id in s.txns :: id < s.nextId
    ensures Calls(Do(s, a))
  {
    if ReadAction(a) {
      ReadCallKept(s, a);
    } else if WriteAction(a) {
      WriteCallKept(s, a);
    } else if CommitAction(a) || a.Begin? {
      CallsOutsideKept(s, a);
    } else {
      AdminKeepsCalls(s, Do(s, a));
    }
  }

  ghost predicate IdsMatch(s: State) {
    && (forall i, j | 0 <= i < j < |s.issued| :: s.issued[i] < s.issued[j])
    && (forall id :: id in s.issued <==> id in s.txns)
    && (forall id | id in s.issued :: id < s.nextId)
  }

  lemma IdsKept(s: State, a: Action)
    requires IdsMatch(s) && Enabled(s, a)
    ensures IdsMatch(Do(s, a))
  {
    if a.Begin? {
      assert forall i | 0 <= i < |s.issued| :: s.issued[i] in s.issued;
    } else {
      OnlyBeginIssues(s, a);
    }
  }

  lemma OnlyBeginIssues(s: State, a: Action)
    requires Enabled(s, a) && !a.Begin?
    ensures var t := Do(s, a);
            t.txns.Keys == s.txns.Keys && t.issued == s.issued && t.nextId == s.nextId
  {
  }

  // ---------------------------------------------------------------- every schedule

  ghost predicate Inv(s: State) {
    && Locks(s)
    && DataMatches(s) && HistoryMatches(s)
    && CommitsFollowWrites(s.log) && FlagsMeanWrites(s) && FlagsMatch(s)
    && Calls(s)
    && IdsMatch(s)
  }

  lemma InvKept(s: State, a: Action)
    requires Inv(s) && Enabled(s, a)
    ensures Inv(Do(s, a))
  {
    LocksKept(s, a);
    MapKept(s, a);
    CommitsKept(s, a);
    FlagsKept(s, a);
    CallsKept(s, a);
    IdsKept(s, a);
  }

  /** `s` is reached by this schedule of any number of transactions and administrators. */
  ghost predicate Reached(actions: seq<Action>, s: State) {
    Exec(actions) == Some(s)
  }

  lemma {:induction false} ReachedInv(actions: seq<Action>, s: State)
    requires Reached(actions, s)
    ensures Inv(s)
  {
    if actions != [] {
      var n := |actions| - 1;
      ReachedInv(actions[..n], Exec(actions[..n]).value);
      InvKept(Exec(actions[..n]).value, actions[n]);
    }
  }

  /**
   While any reader holds the lock, the map it sees is the replay of the log without the lost
   keys, and nobody is inside a PUT or DELETE: no change is half done.
   */
  lemma ReadersSeeLoggedMap(actions: seq<Action>, s: State)
    requires Reached(actions, s) && s.readers != {}
    ensures s.data == ReplayOn(map[], s.log) - Lost(s.events)
    ensures forall id | id in s.txns :: !s.txns[id].pc.Changes()
  {
    ReachedInv(actions, s);
    LiveMapWhenUnlocked(actions, s);
  }

  /** While any reader holds the lock, no step of anyone changes the map or the logged writes, COMMITs included. */
  lemma NothingChangesUnderReaders(actions: seq<Action>, s: State, a: Action)
    requires Reached(actions, s) && s.readers != {} && Enabled(s, a)
    ensures Do(s, a).data == s.data && Writes(Do(s, a).log) == Writes(s.log)
  {
    ReachedInv(actions, s);
    NoWriterMeansNoChange(s, a);
    StepAddsNewRecords(s, a);
    OtherRecordsAreInert(s, a);
    WritesConcat(s.log, NewRecords(s, a));
    assert Writes(s.log) + [] == Writes(s.log);
  }

  lemma OtherRecordsAreInert(s: State, a: Action)
    requires !a.AppendChange?
    ensures Writes(NewRecords(s, a)) == []
  {
    var rs := NewRecords(s, a);
    if rs != [] {
      assert rs == [rs[0]] && Inert(rs[0]);
      assert Writes(rs) == Writes([]) + WriteOf(rs[0]);
    }
  }

  lemma NoWriterMeansNoChange(s: State, a: Action)
    requires Locks(s) && s.writer == None && Enabled(s, a)
    ensures Do(s, a).data == s.data
    ensures !a.AppendChange?
  {
  }

  /**
   Whenever no writer holds the lock, whatever appends failed: the live map is the replay of the
   whole log without the lost keys, is part of that replay, and equals it if and only if nothing
   is lost.
   */
  lemma LiveMapWhenUnlocked(actions: seq<Action>, s: State)
    requires Reached(actions, s) && s.writer == None
    ensures s.data == ReplayOn(map[], s.log) - Lost(s.events)
    ensures forall key | key in s.data :: Lookup(ReplayOn(map[], s.log), key) == Some(s.data[key])
    ensures s.data == ReplayOn(map[], s.log) <==> Lost(s.events) == {}
  {
    ReachedInv(actions, s);
    ReplayIsApplyWrites(map[], s.log);
    LiveIsReplayWithoutLost(s.events);
    LiveIsSubmapOfReplay(s.events);
  }

  /** What a GET of `key` answers when this is the log: its last logged PUT or DELETE decides. */
  ghost predicate AnswersFromLog(log: seq<WALRecord>, key: bytes, answer: bytes) {
    && (Untouched(log, key) ==> answer == [])
    && (forall i: nat | LastWriter(log, key, i) :: answer == if log[i].rtype == PUT then log[i].value else [])
  }

  /**
   The answer a GET takes away at this moment is that of the last logged write of its key, if and
   only if the key is not lost or was last logged with an empty value; a lost key is in the replay
   of the log and yet reads as empty.
   */
  lemma GetReturnsLastLoggedWriteIff(actions: seq<Action>, s: State, id: uint64)
    requires Reached(actions, s) && Enabled(s, Read(id, [])) && s.txns[id].pc.call.ReadKey?
    ensures var key := s.txns[id].pc.call.key;
            var answer := Do(s, Read(id, [])).txns[id].pc.answer;
            var logged := Lookup(ReplayOn(map[], s.log), key);
            && answer.GetEvent? && answer.key == key
            && (AnswersFromLog(s.log, key, answer.answer) <==> key !in Lost(s.events) || logged == Some([]))
            && (key in Lost(s.events) ==> answer.answer == [] && logged.Some?)
  {
    ReachedInv(actions, s);
    assert id in s.readers;
    LiveMapWhenUnlocked(actions, s);
    ReplayIsApplyWrites(map[], s.log);
    LiveIsReplayWithoutLost(s.events);
    AnswersFromLogIff(s.log, s.txns[id].pc.call.key, ValueOf(s.data, s.txns[id].pc.call.key));
  }

  /** The last logged write of a key says what the replay holds for it. */
  lemma AnswersFromLogIff(log: seq<WALRecord>, key: bytes, answer: bytes)
    ensures AnswersFromLog(log, key, answer) <==> answer == ValueOf(ReplayOn(map[], log), key)
  {
    FindLastWriter(log, key);
    if Untouched(log, key) {
      ReplayKeepsUntouchedKey(map[], log, key);
    }
    forall i: nat | LastWriter(log, key, i)
      ensures ValueOf(ReplayOn(map[], log), key) == if log[i].rtype == PUT then log[i].value else []
    {
      ReplayIsLastWriter(map[], log, key, i);
    }
  }

  ghost predicate NoFailedAppend(actions: seq<Action>) {
    forall a | a in actions && a.AppendChange? :: a.ok
  }

  /** When every append succeeds no key is ever lost. */
  lemma {:induction false} NothingLostWithoutFailures(actions: seq<Action>, s: State)
    requires Reached(actions, s) && NoFailedAppend(actions)
    ensures Lost(s.events) == {}
  {
    if actions != [] {
      var n := |actions| - 1;
      var before := Exec(actions[..n]).value;
      NothingLostWithoutFailures(actions[..n], before);
      assert actions[n] in actions;
      StepAddsNewEvents(before, actions[n]);
      LostAfterStep(before.events, NewEvents(before, actions[n]));
    }
  }

  lemma LostAfterStep(events: seq<Event>, more: seq<Event>)
    requires |more| <= 1 && forall e | e in more && e.PutEvent? :: e.logged
    ensures Lost(events + more) <= Lost(events)
  {
    if more == [] {
      assert events + more == events;
    } else {
      assert more == [more[0]];
      SnocParts(events, more[0]);
    }
  }

  /**
   Linearizability. The events are answers of the sequential map in their order, their logged
   writes are the log's in log order, each returned call returned its own event, which lies
   within the call, different calls own different events, every event has an owner, and calls
   that did not overlap are ordered as they ran.
   */
  lemma Linearizable(actions: seq<Action>, s: State)
    requires Reached(actions, s)
    ensures Legal(s.events)
    ensures Writes(s.log) == Logged(s.events)
    ensures DoneMatches(s) && AllOwned(s)
    ensures forall i, j | 0 <= i < |s.done| && 0 <= j < |s.done| && s.done[i].until <= s.done[j].since ::
              s.done[i].at < s.done[j].at
  {
    ReachedInv(actions, s);
  }

  /** A call that starts after another returned is recorded as starting after it. */
  lemma LaterCallsStartLater(actions: seq<Action>, s: State, a: Action)
    requires Reached(actions, s) && Enabled(s, a) && (a.EnterRead? || a.EnterWrite?)
    ensures forall i | 0 <= i < |s.done| :: s.done[i].until <= Do(s, a).txns[a.id].pc.since
  {
    ReachedInv(actions, s);
  }

  /**
   Ids are issued in increasing order, and every COMMIT in the log, whatever truncations came
   between, has a PUT or DELETE of the same transaction before it.
   */
  lemma CommitDiscipline(actions: seq<Action>, s: State)
    requires Reached(actions, s)
    ensures forall i, j | 0 <= i < j < |s.issued| :: s.issued[i] < s.issued[j]
    ensures CommitsFollowWrites(s.log)
  {
    ReachedInv(actions, s);
  }

  /**
   A commit goes to the log if and only if the transaction's last PUT, or DELETE that found its
   key, was logged: a failure after earlier logged writes suppresses the COMMIT.
   */
  lemma CommitIsLoggedIff(actions: seq<Action>, s: State, id: uint64)
    requires Reached(actions, s) && Enabled(s, Commit(id))
    ensures Do(s, Commit(id)).txns[id].pc.Committing? <==> LastAttempt(s.events, id) == Some(true)
  {
    ReachedInv(actions, s);
  }

  // ---------------------------------------------------------------- crashes

  /** After these many events the sequential map was `m` without the keys lost by then. */
  ghost predicate LiveAfterEvents(events: seq<Event>, i: nat, m: KeyValues) {
    i <= |events| && LiveAfter(events[..i]) == m - Lost(events[..i])
  }

  /** The records given up by truncations. */
  function Forgotten(s: State): seq<WALRecord> {
    s.log[..Min(s.fileStart, |s.log|)]
  }

  /** The records in the current file. */
  function Current(s: State): seq<WALRecord> {
    s.log[Min(s.fileStart, |s.log|)..]
  }

  predicate SizedChange(change: Change) {
    |change.key| < TWO_32 && (change.SetTo? ==> |change.value| < TWO_32)
  }

  /** No string of 4 GiB or more, whose length would not fit its 32-bit field. */
  predicate SizedAction(a: Action) {
    match a
    case EnterWrite(_, change) => SizedChange(change)
    case AdminCheckpoint(name, _, _) => |name| < TWO_32
    case _ => true
  }

  ghost predicate AllSizedActions(actions: seq<Action>) {
    forall a | a in actions :: SizedAction(a)
  }

  ghost predicate SizedState(s: State) {
    AllTrue(s.log) && forall id | id in s.txns && s.txns[id].pc.Writing? :: SizedChange(s.txns[id].pc.change)
  }

  lemma SizedKept(s: State, a: Action)
    requires SizedState(s) && Enabled(s, a) && SizedAction(a)
    ensures SizedState(Do(s, a))
  {
    StepAddsNewRecords(s, a);
    if a.EnterWrite? {
      EntryKeepsSized(s, a);
    }
  }

  lemma EntryKeepsSized(s: State, a: Action)
    requires SizedState(s) && Enabled(s, a) && SizedAction(a) && a.EnterWrite?
    ensures SizedState(Do(s, a))
  {
  }

  /** Keys, values and checkpoint names under 4 GiB make for true lengths in the whole log. */
  lemma {:induction false} ReachedSized(actions: seq<Action>, s: State)
    requires Reached(actions, s) && AllSizedActions(actions)
    ensures SizedState(s)
  {
    if actions != [] {
      var n := |actions| - 1;
      ReachedSized(actions[..n], Exec(actions[..n]).value);
      assert SizedAction(actions[n]);
      SizedKept(Exec(actions[..n]).value, actions[n]);
    }
  }

  /**
   Stop any schedule at any moment and cut the log file, torn or not, at any byte. What is read back
   are the first records of the file. Replayed over the base behind it, they give the map that was
   live after some prefix of the linearized calls, except for the keys lost by then, and that
   prefix logged exactly the writes that survive. Recovery from nothing gives the same map if and
   only if those records touch all of the base.
   */
  lemma CrashRecovery(actions: seq<Action>, s: State, w: Wal, cut: nat)
    requires Reached(actions, s) && AllSizedActions(actions)
    requires Sound(w) && w.recs == Current(s) && cut <= |w.file|
    requires w.tear.Torn? ==> w.tear.record.LengthsTrue()
    ensures var base := ReplayOn(map[], Forgotten(s));
            var read := ReadAll(w.file[..cut]);
            && read == w.recs[..Readable(w.recs, cut)]
            && (exists i: nat :: LiveAfterEvents(s.events, i, ReplayOn(base, read))
                             && Logged(s.events[..i]) == Writes(Forgotten(s) + read))
            && (Recover(w.file[..cut]) == ReplayOn(base, read)
                <==> forall key | key in base :: !Untouched(read, key))
  {
    ReachedInv(actions, s);
    ReachedSized(actions, s);
    assert Honest(w);
    ReadCutFile(w, cut);
    var i := MomentOfSurvivors(s, Readable(w.recs, cut));
    RecoveryAfterCompactionIff(ReplayOn(map[], Forgotten(s)), Current(s)[..Readable(w.recs, cut)]);
  }

  /** The first `j` records of the file, replayed over the base, belong to some prefix of the events. */
  lemma MomentOfSurvivors(s: State, j: nat) returns (i: nat)
    requires HistoryMatches(s) && j <= |Current(s)|
    ensures var read := Current(s)[..j];
            && LiveAfterEvents(s.events, i, ReplayOn(ReplayOn(map[], Forgotten(s)), read))
            && Logged(s.events[..i]) == Writes(Forgotten(s) + read)
  {
    var read := Current(s)[..j];
    TakeBehind(Forgotten(s), Current(s), j);
    assert s.log == Forgotten(s) + Current(s);
    i := MapAfterRecords(s, |Forgotten(s) + read|);
    ReplayConcat(map[], Forgotten(s), read);
  }

  lemma TakeBehind<T>(a: seq<T>, b: seq<T>, j: nat)
    requires j <= |b|
    ensures (a + b)[..|a + b[..j]|] == a + b[..j]
  {
  }

  /** The first `n` records of the log replay to the map after some prefix of the events. */
  lemma MapAfterRecords(s: State, n: nat) returns (i: nat)
    requires HistoryMatches(s) && n <= |s.log|
    ensures LiveAfterEvents(s.events, i, ReplayOn(map[], s.log[..n]))
    ensures Logged(s.events[..i]) == Writes(s.log[..n])
  {
    WritesOfFront(s.log, n);
    i := MomentOfWrites(s.events, Writes(s.log[..n]));
    LiveWhenLogged(s.events, i, s.log[..n]);
  }

  lemma LiveWhenLogged(events: seq<Event>, i: nat, rs: seq<WALRecord>)
    requires Legal(events) && i <= |events| && Logged(events[..i]) == Writes(rs)
    ensures LiveAfterEvents(events, i, ReplayOn(map[], rs))
  {
    LegalPrefix(events, i);
    LiveIsReplayWithoutLost(events[..i]);
    ReplayIsApplyWrites(map[], rs);
  }

  lemma {:induction false} WritesOfFront(rs: seq<WALRecord>, n: nat)
    requires n <= |rs|
    ensures Writes(rs[..n]) <= Writes(rs)
  {
    if n == |rs| {
      assert rs[..n] == rs;
    } else {
      WritesOfFront(rs[..|rs| - 1], n);
      assert rs[..|rs| - 1][..n] == rs[..n];
    }
  }

  // ---------------------------------------------------------------- what is stored

  /** A condition on a key and its value. */
  type PairTest = (bytes, bytes) -> bool

  /** Every PUT that is called passes the test. */
  ghost predicate AllPutsPass(actions: seq<Action>, good: PairTest) {
    forall a | a in actions && a.EnterWrite? && a.change.SetTo? :: good(a.change.key, a.change.value)
  }

  ghost predicate PairsPass(data: KeyValues, good: PairTest) {
    forall key | key in data :: good(key, data[key])
  }

  /** Stored pairs, values about to be stored, and values held for putting back pass. */
  ghost predicate AllPass(s: State, good: PairTest) {
    && PairsPass(s.data, good)
    && forall id | id in s.txns && s.txns[id].pc.Writing? ::
         var pc := s.txns[id].pc;
         && (pc.change.SetTo? ==> good(pc.change.key, pc.change.value))
         && (pc.change.Erase? && !pc.stage.Entered? ==> good(pc.change.key, pc.kept))
  }

  lemma AllPassKept(s: State, a: Action, good: PairTest)
    requires AllPass(s, good) && Enabled(s, a)
    requires a.EnterWrite? && a.change.SetTo? ==> good(a.change.key, a.change.value)
    ensures AllPass(Do(s, a), good)
  {
    if a.Mutate? || a.Undo? {
      MapStepPasses(s, a, good);
    }
  }

  lemma MapStepPasses(s: State, a: Action, good: PairTest)
    requires AllPass(s, good) && Enabled(s, a) && (a.Mutate? || a.Undo?)
    ensures AllPass(Do(s, a), good)
  {
  }

  /** What every PUT passes, every stored pair passes, in every reachable state. */
  lemma {:induction false} StoredPairsPass(actions: seq<Action>, s: State, good: PairTest)
    requires Reached(actions, s) && AllPutsPass(actions, good)
    ensures AllPass(s, good)
  {
    if actions != [] {
      var n := |actions| - 1;
      var before := Exec(actions[..n]).value;
      StoredPairsPass(actions[..n], before, good);
      assert actions[n] in actions;
      AllPassKept(before, actions[n], good);
    }
  }

  // ---------------------------------------------------------------- no deadlock

  /**
   What a thread does next, when nothing holds it up; `found` is what its scan would find, `ok` and
   `now` what becomes of its append.
   */
  function NextStep(id: uint64, pc: Pc, found: Pairs, ok: bool, now: uint64): Action {
    match pc
    case Reading(_, _) => Read(id, found)
    case Answered(_, _, _) => LeaveRead(id)
    case Missing(_, _, _) => LeaveWrite(id)
    case Writing(_, stage, _, _, _) =>
      (match stage
       case Entered => Mutate(id)
       case Mutated => LockWal(id)
       case Logging => AppendChange(id, ok, now)
       case Appended(_) => UnlockWal(id)
       case Released(logged) => if logged then LeaveWrite(id) else Undo(id)
       case Undone => LeaveWrite(id))
    case Committing => CommitLockWal(id)
    case CommitLogging => AppendCommit(id, ok, now)
    case CommitAppended => CommitUnlockWal(id)
    case Idle => Commit(id)
    case Unknown => Commit(id)
  }

  predicate UnderWay(pc: Pc) {
    !pc.Idle? && !pc.Unknown?
  }

  predicate WaitsForWal(pc: Pc) {
    pc.InStage(Mutated) || pc.Committing?
  }

  /** Its next step is possible, whatever becomes of its append. */
  ghost predicate CanGoOn(s: State, id: uint64, found: Pairs) {
    forall ok: bool, now: uint64 :: Enabled(s, NextStep(id, PcOf(s, id), found, ok, now))
  }

  lemma OnlyTheWalHoldsUp(s: State, id: uint64) returns (found: Pairs)
    requires UnderWay(PcOf(s, id)) && (WaitsForWal(PcOf(s, id)) ==> s.walLock == Free)
    ensures CanGoOn(s, id, found)
  {
    var pc := PcOf(s, id);
    if pc.Reading? && pc.call.ReadRange? {
      var order := SomeOrder(s.data);
      found := ScanOf(order, pc.call.start, pc.call.end, pc.call.limit);
      ScanOfIsScan(s.data, order, pc.call.start, pc.call.end, pc.call.limit);
    } else {
      found := [];
    }
  }

  lemma HolderIsNotWaiting(s: State)
    requires Locks(s) && s.walLock.HeldBy?
    ensures UnderWay(PcOf(s, s.walLock.id)) && !WaitsForWal(PcOf(s, s.walLock.id))
  {
    assert s.walLock.id in s.txns;
  }

  /** Who keeps others from going on can go on. */
  ghost predicate HolderCanGoOn(s: State, found: Pairs) {
    match s.walLock
    case Free => false
    case HeldByAdmin => Enabled(s, AdminUnlockWal)
    case HeldBy(holder) => CanGoOn(s, holder, found)
  }

  lemma OneOfThemCanGoOn(s: State, id: uint64) returns (found: Pairs)
    requires Locks(s) && UnderWay(PcOf(s, id))
    ensures CanGoOn(s, id, found) || (WaitsForWal(PcOf(s, id)) && HolderCanGoOn(s, found))
  {
    match s.walLock
    case Free =>
      found := OnlyTheWalHoldsUp(s, id);
    case HeldByAdmin =>
      if WaitsForWal(PcOf(s, id)) {
        found := [];
      } else {
        found := OnlyTheWalHoldsUp(s, id);
      }
    case HeldBy(holder) =>
      HolderIsNotWaiting(s);
      found := OnlyTheWalHoldsUp(s, if WaitsForWal(PcOf(s, id)) then holder else id);
  }

  /**
   The two locks cannot deadlock. In every reachable state each call under way, a commit included,
   can take its next step, or it waits for the log's mutex and whoever holds that can go on.
   */
  lemma NobodyIsStuck(actions: seq<Action>, s: State, id: uint64) returns (found: Pairs)
    requires Reached(actions, s) && UnderWay(PcOf(s, id))
    ensures CanGoOn(s, id, found) || (WaitsForWal(PcOf(s, id)) && HolderCanGoOn(s, found))
  {
    ReachedInv(actions, s);
    found := OneOfThemCanGoOn(s, id);
  }

  lemma LockIsHeldBySomebody(s: State, id: uint64)
    requires Locks(s) && PcOf(s, id).Idle? && (s.writer.Some? || s.readers != {})
    ensures exists other :: other in s.txns && other != id && UnderWay(s.txns[other].pc)
  {
    if s.writer.Some? {
      assert s.writer.value in s.txns;
    } else {
      var reader :| reader in s.readers;
      assert reader in s.txns;
    }
  }

  /** A call that cannot enter waits for another that is under way. */
  lemma EntryWaitsForSomebody(actions: seq<Action>, s: State, id: uint64, change: Change)
    requires Reached(actions, s) && PcOf(s, id).Idle? && !Enabled(s, EnterWrite(id, change))
    ensures exists other :: other in s.txns && other != id && UnderWay(s.txns[other].pc)
  {
    ReachedInv(actions, s);
    LockIsHeldBySomebody(s, id);
  }

  /** Readers share: one can enter whenever no PUT or DELETE is under way. */
  lemma ReadersShareTheLock(actions: seq<Action>, s: State, id: uint64, call: Call)
    requires Reached(actions, s) && PcOf(s, id).Idle?
    requires forall other | other in s.txns :: !s.txns[other].pc.Changes()
    ensures Enabled(s, EnterRead(id, call))
  {
    ReachedInv(actions, s);
  }

  /**
   Beginning and committing wait for nobody, whatever is locked; checkpoints and truncations wait
   only for the log's mutex.
   */
  lemma OthersWaitForNobody(actions: seq<Action>, s: State, id: uint64, name: bytes, ok: bool, now: uint64)
    requires Reached(actions, s)
    ensures |s.issued| < TWO_64 - 1 ==> Enabled(s, Begin)
    ensures PcOf(s, id).Idle? ==> Enabled(s, Commit(id))
    ensures s.walLock == Free ==> Enabled(s, AdminLockWal)
    ensures s.walLock == HeldByAdmin ==> Enabled(s, AdminCheckpoint(name, ok, now)) && Enabled(s, AdminTruncate)
  {
    IssuedCount(actions, s);
  }

  /** The n-th transaction has id n. */
  lemma {:induction false} IssuedCount(actions: seq<Action>, s: State)
    requires Reached(actions, s)
    ensures s.nextId == |s.issued| + 1
    ensures forall i | 0 <= i < |s.issued| :: s.issued[i] == i + 1
  {
    if actions != [] {
      var n := |actions| - 1;
      var before := Exec(actions[..n]).value;
      IssuedCount(actions[..n], before);
      if !actions[n].Begin? {
        OnlyBeginIssues(before, actions[n]);
      }
    }
  }

  // ---------------------------------------------------------------- what is appended

  /** The append of a PUT or DELETE adds its record, of type 1 or 2, or nothing. */
  lemma ChangeIsAppended(s: State, id: uint64, ok: bool, now: uint64)
    requires Enabled(s, AppendChange(id, ok, now)) && SizedChange(s.txns[id].pc.change)
    ensures var change := s.txns[id].pc.change;
            var record := match change
                          case SetTo(key, value) => WALRecord(1, now, id, |key|, |value|, key, value)
                          case Erase(key) => WALRecord(2, now, id, |key|, 0, key, []);
            Do(s, AppendChange(id, ok, now)).log == if ok then s.log + [record] else s.log
  {
  }

  /** The append of a commit adds a record of type 3 with the transaction's id, or nothing. */
  lemma CommitIsAppended(s: State, id: uint64, ok: bool, now: uint64)
    requires Enabled(s, AppendCommit(id, ok, now))
    ensures Do(s, AppendCommit(id, ok, now)).log
         == if ok then s.log + [WALRecord(3, now, id, 0, 0, [], [])] else s.log
  {
  }

  /** A checkpoint adds a record of type 4 with its name, or nothing. */
  lemma CheckpointIsAppended(s: State, name: bytes, ok: bool, now: uint64)
    requires Enabled(s, AdminCheckpoint(name, ok, now)) && |name| < TWO_32
    ensures Do(s, AdminCheckpoint(name, ok, now)).log
         == if ok then s.log + [WALRecord(4, now, 0, |name|, 0, name, [])] else s.log
  {
  }

  /** A truncation leaves all records behind and the current file empty. */
  lemma TruncationEmptiesTheFile(s: State)
    requires Enabled(s, AdminTruncate)
    ensures Current(Do(s, AdminTruncate)) == [] && Forgotten(Do(s, AdminTruncate)) == s.log
  {
  }

  // ---------------------------------------------------------------- one call alone

  /** What the sequential database does for this change; `w` and `io` decide the append. */
  function CallEffect(data: KeyValues, w: Wal, hasWrites: bool, id: uint64, change: Change, io: Io): Effect {
    match change
    case SetTo(key, value) => PutEffect(data, w, id, key, value, io)
    case Erase(key) => DelEffect(data, w, hasWrites, id, key, io)
  }

  ghost predicate Alone(s: State, id: uint64) {
    PcOf(s, id).Idle? && s.writer == None && s.readers == {} && s.walLock == Free
  }

  /** From entering to the append. */
  ghost function ToAppend(s: State, id: uint64, change: Change, ok: bool, now: uint64): Option<State> {
    var entered := Then(Some(s), EnterWrite(id, change));
    Then(Then(Then(entered, Mutate(id)), LockWal(id)), AppendChange(id, ok, now))
  }

  /** From the append to the return. */
  ghost function ToReturn(s: Option<State>, id: uint64, ok: bool): Option<State> {
    var released := Then(s, UnlockWal(id));
    Then(if ok then released else Then(released, Undo(id)), LeaveWrite(id))
  }

  lemma AloneToAppend(s: State, id: uint64, change: Change, ok: bool, now: uint64)
    requires Alone(s, id) && (change.Erase? ==> change.key in s.data)
    ensures var t := ToAppend(s, id, change, ok, now);
            && t.Some? && t.value.data == Changed(s.data, change) && id in t.value.txns
            && t.value.txns[id] == Txn(Writing(change, Appended(ok), ValueOf(s.data, change.key), |s.events|, |s.events|), true)
  {
    var s1 := Do(s, EnterWrite(id, change));
    var s2 := Do(s1, Mutate(id));
    var s3 := Do(s2, LockWal(id));
    assert Enabled(s3, AppendChange(id, ok, now));
  }

  lemma AloneToReturn(s: State, id: uint64)
    requires PcOf(s, id).Writing? && PcOf(s, id).stage.Appended?
    ensures var pc := s.txns[id].pc;
            var t := ToReturn(Some(s), id, pc.stage.ok);
            && t.Some? && id in t.value.txns
            && t.value.data == (if pc.stage.ok then s.data else UndoneMap(s.data, pc.change, pc.kept))
            && t.value.txns[id] == Txn(Idle, s.txns[id].hasWrites && pc.stage.ok)
  {
    var s1 := Do(s, UnlockWal(id));
    if s.txns[id].pc.stage.ok {
      assert s1.txns[id].pc.InStage(Released(true));
    } else {
      assert s1.txns[id].pc.InStage(Released(false));
    }
  }

  lemma UndoRestores(data: KeyValues, change: Change)
    requires change.Erase? ==> change.key in data
    ensures UndoneMap(Changed(data, change), change, ValueOf(data, change.key))
         == if change.SetTo? then data - {change.key} else data
  {
  }

  /** The steps of a DELETE that finds nothing: it enters, looks and leaves. */
  ghost function MissedCall(s: State, id: uint64, key: bytes): Option<State> {
    Then(Then(Then(Some(s), EnterWrite(id, Erase(key))), Mutate(id)), LeaveWrite(id))
  }

  /** All steps of a PUT or DELETE with nobody in between; `ok` is what the append, if any, returns. */
  ghost function WholeCall(s: State, id: uint64, change: Change, ok: bool, now: uint64): Option<State> {
    if change.Erase? && change.key !in s.data then MissedCall(s, id, change.key)
    else ToReturn(ToAppend(s, id, change, ok, now), id, ok)
  }

  lemma AloneMissed(s: State, id: uint64, key: bytes)
    requires Alone(s, id) && key !in s.data
    ensures var t := MissedCall(s, id, key);
            && t.Some? && id in t.value.txns
            && t.value.data == s.data && t.value.txns[id] == s.txns[id]
  {
    var s1 := Do(s, EnterWrite(id, Erase(key)));
    var s2 := Do(s1, Mutate(id));
    assert Enabled(s2, LeaveWrite(id));
  }

  /** A PUT or DELETE with nobody in between leaves the map and the flag as the sequential call does. */
  lemma AloneIsSequential(s: State, id: uint64, change: Change, w: Wal, io: Io)
    requires Alone(s, id)
    ensures var e := CallEffect(s.data, w, s.txns[id].hasWrites, id, change, io);
            var t := WholeCall(s, id, change, e.result == Success, io.now);
            && t.Some? && id in t.value.txns
            && t.value.data == e.data && t.value.txns[id] == Txn(Idle, e.hasWrites)
  {
    if change.Erase? && change.key !in s.data {
      AloneMissed(s, id, change.key);
    } else {
      var ok := CallEffect(s.data, w, s.txns[id].hasWrites, id, change, io).result == Success;
      AloneToAppend(s, id, change, ok, io.now);
      AloneToReturn(ToAppend(s, id, change, ok, io.now).value, id);
      UndoRestores(s.data, change);
    }
  }
}
