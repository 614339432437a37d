/**
 What a crash leaves of one transaction. Replay ignores COMMIT, so a transaction is all there or not
 there at all exactly when there is too little of it to be cut in two.
 */
module Atomicity {
  import opened Bytes
  import opened WalRecord
  import opened WalStream
  import opened LogFile
  import opened Replay
  import opened Database
  import opened Server
  import P = Protocol

  /** The PUT and DELETE records of a transaction. */
  function CountWrites(rs: seq<WALRecord>, id: uint64): nat {
    if rs == [] then 0
    else CountWrites(rs[..|rs| - 1], id) + if WritesAs(rs[|rs| - 1], id) then 1 else 0
  }

  /** All of the transaction's writes are among the records read back, or none is. */
  ghost predicate AllOrNone(read: seq<WALRecord>, all: seq<WALRecord>, id: uint64) {
    CountWrites(read, id) == 0 || CountWrites(read, id) == CountWrites(all, id)
  }

  /** So it is wherever the file is cut; `forgotten` are records in files given up before. */
  ghost predicate AtomicAtEveryCut(w: Wal, forgotten: seq<WALRecord>, id: uint64) {
    forall cut: nat | cut <= |w.file| :: AllOrNone(ReadAll(w.file[..cut]), forgotten + w.recs, id)
  }

  lemma {:induction false} CountConcat(a: seq<WALRecord>, b: seq<WALRecord>, id: uint64)
    ensures CountWrites(a + b, id) == CountWrites(a, id) + CountWrites(b, id)
  {
    if b == [] {
      assert a + b == a;
    } else {
      WithoutLast(a, b);
      CountConcat(a, b[..|b| - 1], id);
    }
  }

  lemma CountFront(rs: seq<WALRecord>, j: nat, id: uint64)
    requires j <= |rs|
    ensures CountWrites(rs[..j], id) <= CountWrites(rs, id)
  {
    assert rs == rs[..j] + rs[j..];
    CountConcat(rs[..j], rs[j..], id);
  }

  /** Where there is a write there is a first one. */
  lemma {:induction false} FirstWrite(rs: seq<WALRecord>, id: uint64) returns (j: nat)
    requires CountWrites(rs, id) >= 1
    ensures j <= |rs| && CountWrites(rs[..j], id) == 1
  {
    if CountWrites(rs, id) == 1 {
      j := |rs|;
      assert rs[..j] == rs;
    } else {
      var before := rs[..|rs| - 1];
      j := FirstWrite(before, id);
      assert before[..j] == rs[..j];
    }
  }

  /** Up to the first record over the reader's limit, some cut leaves exactly the first `j` records. */
  lemma CutBehind(w: Wal, j: nat)
    requires Sound(w) && j <= FirstOversized(w.recs)
    ensures var cut := |Frames(w.recs[..j])|;
            cut <= |w.file| && ReadAll(w.file[..cut]) == w.recs[..j]
  {
    var front, back := w.recs[..j], w.recs[j..];
    assert w.recs == front + back;
    FramesConcat(front, back);
    Associative(Frames(front), Frames(back), TornBytes(w.tear));
    assert w.file[..|Frames(front)|] == Frames(front);
    var fitting := w.recs[..FirstOversized(w.recs)];
    assert forall r | r in front :: r in fitting;
    ReadBackIff(front);
  }

  lemma CutFindsNoneOrAll(w: Wal, forgotten: seq<WALRecord>, id: uint64, cut: nat)
    requires Sound(w) && Honest(w) && cut <= |w.file|
    requires CountWrites(w.recs[..FirstOversized(w.recs)], id) == 0 || CountWrites(forgotten + w.recs, id) <= 1
    ensures AllOrNone(ReadAll(w.file[..cut]), forgotten + w.recs, id)
  {
    ReadCutFile(w, cut);
    var j := Readable(w.recs, cut);
    var readable := w.recs[..FirstOversized(w.recs)];
    assert readable[..j] == w.recs[..j];
    CountFront(readable, j, id);
    CountFront(w.recs, j, id);
    CountConcat(forgotten, w.recs, id);
  }

  /**
   Wherever the file is cut, recovery finds all of a transaction's writes or none, if and only if
   it finds none even in the whole file, or the transaction wrote at most once.
   */
  lemma AtomicIff(w: Wal, forgotten: seq<WALRecord>, id: uint64)
    requires Sound(w) && Honest(w)
    ensures AtomicAtEveryCut(w, forgotten, id)
            <==> CountWrites(w.recs[..FirstOversized(w.recs)], id) == 0 || CountWrites(forgotten + w.recs, id) <= 1
  {
    var readable := w.recs[..FirstOversized(w.recs)];
    if CountWrites(readable, id) == 0 || CountWrites(forgotten + w.recs, id) <= 1 {
      forall cut: nat | cut <= |w.file|
        ensures AllOrNone(ReadAll(w.file[..cut]), forgotten + w.recs, id)
      {
        CutFindsNoneOrAll(w, forgotten, id, cut);
      }
    } else {
      var j := FirstWrite(readable, id);
      assert readable[..j] == w.recs[..j];
      CutBehind(w, j);
      assert !AllOrNone(ReadAll(w.file[..|Frames(w.recs[..j])|]), forgotten + w.recs, id);
    }
  }

  lemma {:induction false} NoneOversized(rs: seq<WALRecord>)
    requires AllFit(rs)
    ensures FirstOversized(rs) == |rs|
  {
    if rs != [] {
      NoneOversized(rs[1..]);
    }
  }

  /** In one readable file: if and only if it holds at most one write of the transaction. */
  lemma AtomicInOneFileIff(w: Wal, id: uint64)
    requires Sound(w) && Honest(w) && AllFit(w.recs)
    ensures AtomicAtEveryCut(w, [], id) <==> CountWrites(w.recs, id) <= 1
  {
    AtomicIff(w, [], id);
    NoneOversized(w.recs);
    assert w.recs[..|w.recs|] == w.recs;
    assert [] + w.recs == w.recs;
  }

  /**
   After any run of the database, compactions and failed appends included: a crash leaves all or
   nothing of a transaction if and only if nothing of it can be read, or it logged at most one
   PUT or DELETE.
   */
  lemma RunAtomicIff(ops: seq<Op>, id: uint64)
    requires AllSized(ops)
    ensures var s := Run(ops);
            AtomicAtEveryCut(s.wal, s.forgotten, id)
            <==> || CountWrites(s.wal.recs[..FirstOversized(s.wal.recs)], id) == 0
                 || CountWrites(AllRecords(s), id) <= 1
  {
    RunIsConsistent(ops);
    RunIsHonest(ops);
    AtomicIff(Run(ops).wal, Run(ops).forgotten, id);
  }

  // ---------------------------------------------------------------- a transaction cut in two

  const TWO_PUTS: seq<Op> := [PutOp(1, [1], [1], LOGGED), PutOp(1, [2], [1], LOGGED), CommitOp(1, LOGGED)]

  /** Two PUTs and a COMMIT, all logged; cut behind the first PUT, recovery gives one of the two keys. */
  lemma TwoPutsCutApart()
    ensures var file := Run(TWO_PUTS).wal.file;
            var cut := |Frame(Stamped(PutRecord(1, [1], [1]), LOGGED.now))|;
            && Run(TWO_PUTS).data == map[[1] := [1], [2] := [1]]
            && cut <= |file| && Recover(file[..cut]) == map[[1] := [1]]
            && !AtomicAtEveryCut(Run(TWO_PUTS).wal, [], 1)
  {
    var first := Stamped(PutRecord(1, [1], [1]), LOGGED.now);
    var second := Stamped(PutRecord(1, [2], [1]), LOGGED.now);
    var last := Stamped(CommitRecord(1), LOGGED.now);
    TwoPutsRun();
    RunIsConsistent(TWO_PUTS);
    RunIsHonest(TWO_PUTS);
    CutBehindFirst(Run(TWO_PUTS).wal, first, [second, last]);
    CountThree(first, second, last, 1);
    AtomicInOneFileIff(Run(TWO_PUTS).wal, 1);
  }

  /** Cut behind its first record, a file recovers to what that record does. */
  lemma CutBehindFirst(w: Wal, first: WALRecord, more: seq<WALRecord>)
    requires Sound(w) && w.recs == [first] + more && Fits(first)
    ensures |Frame(first)| <= |w.file| && Recover(w.file[..|Frame(first)|]) == Apply(map[], first)
  {
    CutBehind(w, 1);
    assert w.recs[..1] == [first];
    FramesOne(first);
    OneRecordRecovers(w.(file := Frame(first)), first);
    ReadBackIff([first]);
  }

  lemma TwoPutsRun()
    ensures Run(TWO_PUTS).data == map[[1] := [1], [2] := [1]]
    ensures Run(TWO_PUTS).wal.recs == [Stamped(PutRecord(1, [1], [1]), LOGGED.now),
                                       Stamped(PutRecord(1, [2], [1]), LOGGED.now),
                                       Stamped(CommitRecord(1), LOGGED.now)]
  {
    RunOne([], TWO_PUTS[0]);
    RunOne(TWO_PUTS[..1], TWO_PUTS[1]);
    RunOne(TWO_PUTS[..2], TWO_PUTS[2]);
    assert [] + [TWO_PUTS[0]] == TWO_PUTS[..1];
    assert TWO_PUTS[..1] + [TWO_PUTS[1]] == TWO_PUTS[..2];
    assert TWO_PUTS[..2] + [TWO_PUTS[2]] == TWO_PUTS;
  }

  lemma CountThree(a: WALRecord, b: WALRecord, c: WALRecord, id: uint64)
    ensures CountWrites([a, b, c], id)
         == (if WritesAs(a, id) then 1 else 0) + (if WritesAs(b, id) then 1 else 0) + (if WritesAs(c, id) then 1 else 0)
  {
    CountSnoc([], a);
    CountSnoc([a], b);
    CountSnoc([a, b], c);
    assert [] + [a] == [a] && [a] + [b] == [a, b] && [a, b] + [c] == [a, b, c];
  }

  // ---------------------------------------------------------------- the server's transactions

  /** A log in which every transaction wrote at most once, all of them with ids below `next`. */
  ghost predicate OnceBelow(w: Wal, next: nat) {
    && Sound(w) && Honest(w)
    && (forall r: WALRecord | r in w.recs :: r.txnId < next)
    && (forall id :: CountWrites(w.recs, id) <= 1)
  }

  lemma {:induction false} NewIdWroteNothing(rs: seq<WALRecord>, id: uint64)
    requires forall r: WALRecord | r in rs :: r.txnId < id
    ensures CountWrites(rs, id) == 0
  {
    if rs != [] {
      NewIdWroteNothing(rs[..|rs| - 1], id);
      assert rs[|rs| - 1] in rs;
    }
  }

  lemma CountSnoc(rs: seq<WALRecord>, r: WALRecord)
    ensures forall id :: CountWrites(rs + [r], id) == CountWrites(rs, id) + if WritesAs(r, id) then 1 else 0
  {
    assert (rs + [r])[..|rs|] == rs;
  }

  lemma AppendKeepsOnce(w: Wal, next: nat, r: WALRecord, io: Io)
    requires OnceBelow(w, next) && r.LengthsTrue() && r.txnId < next
    requires (r.rtype == PUT || r.rtype == DELETE) ==> CountWrites(w.recs, r.txnId) == 0
    ensures OnceBelow(Append(w, r, io.now, io.outcome).0, next)
  {
    var s := Stamped(r, io.now);
    WriteKeepsSound(w, s, io.outcome);
    CountSnoc(w.recs, s);
  }

  /** A write with a new id, and the COMMIT behind it if it was logged. */
  function WriteAndCommit(w: Wal, r: WALRecord, op: Io, commit: Io): Wal {
    var (w', ok) := Append(w, r, op.now, op.outcome);
    if ok then Append(w', CommitRecord(r.txnId), commit.now, commit.outcome).0 else w'
  }

  lemma WriteAndCommitKeepOnce(w: Wal, next: nat, r: WALRecord, op: Io, commit: Io)
    requires OnceBelow(w, next) && r.txnId == next && r.LengthsTrue()
    ensures OnceBelow(WriteAndCommit(w, r, op, commit), next + 1)
  {
    NewIdWroteNothing(w.recs, r.txnId);
    AppendKeepsOnce(w, next + 1, r, op);
    AppendKeepsOnce(Append(w, r, op.now, op.outcome).0, next + 1, CommitRecord(r.txnId), commit);
  }

  /** The record a request asks the log to take, if any. */
  function RecordFor(s: DbState, request: Message): Option<WALRecord> {
    if !s.initialized then None
    else if request.mtype == P.PUT then Some(PutRecord(s.nextId, request.key, request.value))
    else if request.mtype == P.DELETE && request.key in s.data then Some(DeleteRecord(s.nextId, request.key))
    else None
  }

  /** A request writes at most once, with the new transaction's id, and then the COMMIT. */
  lemma DispatchWritesOnce(s: DbState, request: Message, env: Env)
    ensures var s' := Dispatch(s, request, env).0;
            match RecordFor(s, request)
            case None => s'.wal == s.wal && s'.nextId in {s.nextId, NextId(s.nextId)}
            case Some(r) => s'.wal == WriteAndCommit(s.wal, r, env.op, env.commit) && s'.nextId == NextId(s.nextId)
  {
  }

  lemma DispatchKeepsOnce(s: DbState, s': DbState, request: Message, env: Env)
    requires s' == Dispatch(s, request, env).0
    requires OnceBelow(s.wal, s.nextId) && s.nextId + 1 < TWO_64 && request.Deliverable()
    ensures OnceBelow(s'.wal, s'.nextId) && s'.nextId <= s.nextId + 1
  {
    DispatchWritesOnce(s, request, env);
    NextStaysOnce(s, s', RecordFor(s, request), env);
  }

  lemma NextStaysOnce(s: DbState, s': DbState, record: Option<WALRecord>, env: Env)
    requires OnceBelow(s.wal, s.nextId) && s.nextId + 1 < TWO_64
    requires match record
             case None => s'.wal == s.wal && s'.nextId in {s.nextId, NextId(s.nextId)}
             case Some(r) =>
               && r.LengthsTrue() && r.txnId == s.nextId && s'.nextId == NextId(s.nextId)
               && s'.wal == WriteAndCommit(s.wal, r, env.op, env.commit)
    ensures OnceBelow(s'.wal, s'.nextId) && s'.nextId <= s.nextId + 1
  {
    if record.Some? {
      WriteAndCommitKeepOnce(s.wal, s.nextId, record.value, env.op, env.commit);
    }
  }

  lemma {:induction false} ServerKeepsOnce(s: DbState, wires: seq<bytes>, envs: seq<Env>)
    requires |wires| == |envs| && OnceBelow(s.wal, s.nextId) && s.nextId + |wires| < TWO_64
    ensures var s' := ServeAll(s, wires, envs);
            OnceBelow(s'.wal, s'.nextId) && s'.nextId <= s.nextId + |wires|
  {
    if wires != [] {
      var n := |wires| - 1;
      ServerKeepsOnce(s, wires[..n], envs[..n]);
      if P.Receive(wires[n]).Got? {
        P.ReceivedIsDeliverable(wires[n]);
        var before := ServeAll(s, wires[..n], envs[..n]);
        DispatchKeepsOnce(before, Serve(before, wires[n], envs[n]).0, P.Receive(wires[n]).message, envs[n]);
      }
    }
  }

  /**
   The server's own transactions write at most once. So, until the ids run out, a crash at any byte
   leaves all or nothing of each, whatever clients send and whatever appends fail or tear.
   */
  lemma ServerTransactionsAreAtomic(s: DbState, wires: seq<bytes>, envs: seq<Env>, id: uint64)
    requires |wires| == |envs| && OnceBelow(s.wal, s.nextId) && s.nextId + |wires| < TWO_64
    ensures AtomicAtEveryCut(ServeAll(s, wires, envs).wal, [], id)
  {
    ServerKeepsOnce(s, wires, envs);
    var w := ServeAll(s, wires, envs).wal;
    assert [] + w.recs == w.recs;
    AtomicIff(w, [], id);
  }
}
