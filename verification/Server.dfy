/**
 The server's dispatch of one request onto the database, and what it answers to the bytes of one
 framed request.
 */
module Server {
  import opened Bytes
  import opened WalRecord
  import opened WalStream
  import opened LogFile
  import opened Replay
  import opened RangeScan
  import opened Database
  import opened Connections
  import ScanText
  import P = Protocol
  import T = Transactions

  type Message = P.Message

  // The server always scans with this limit.
  const SCAN_LIMIT: nat := 1000

  /** The database object as the dispatcher sees it. */
  datatype DbState = DbState(data: KeyValues, wal: Wal, nextId: uint64, initialized: bool)

  /** The environment of one request: the operation's append, the commit's, and the hash map's order. */
  datatype Env = Env(op: Io, commit: Io, order: Pairs)

  ghost predicate FairOrder(s: DbState, request: Message, env: Env) {
    request.mtype == P.SCAN && s.initialized ==> Enumerates(env.order, s.data)
  }

  function Response(id: uint32, mtype: byte, value: bytes): Message {
    P.Message(mtype, id, 0, ToU32(|value|), [], value)
  }

  function Failure(id: uint32, text: string): Message {
    Response(id, P.ERROR, Ascii(text))
  }

  /** A write that succeeded is committed at once; what the commit returns is not looked at. */
  function AfterWrite(s: DbState, id: uint64, e: Effect, commit: Io): DbState {
    if e.result.Success? then s.(data := e.data, wal := CommitEffect(e.data, e.wal, e.hasWrites, id, commit).wal)
    else s.(data := e.data, wal := e.wal)
  }

  function Dispatch(s: DbState, request: Message, env: Env): (DbState, Message) {
    var id := request.id;
    if request.mtype == P.PING then (s, Response(id, P.PONG, Ascii("PONG")))
    else if request.mtype !in {P.GET, P.PUT, P.DELETE, P.SCAN} then (s, Failure(id, "Unsupported operation"))
    else if !s.initialized then (s, Failure(id, "Failed to begin transaction"))
    else
      var txnId := s.nextId;
      var s' := s.(nextId := NextId(s.nextId));
      if request.mtype == P.GET then
        var value := ValueOf(s.data, request.key);
        (s', if value != [] then Response(id, P.SUCCESS, value) else Failure(id, "Key not found"))
      else if request.mtype == P.PUT then
        var e := PutEffect(s.data, s.wal, txnId, request.key, request.value, env.op);
        (AfterWrite(s', txnId, e, env.commit),
         if e.result.Success? then Response(id, P.SUCCESS, Ascii("OK")) else Failure(id, "Failed to put value"))
      else if request.mtype == P.DELETE then
        var e := DelEffect(s.data, s.wal, false, txnId, request.key, env.op);
        (AfterWrite(s', txnId, e, env.commit),
         if e.result.Success? then Response(id, P.SUCCESS, Ascii("OK")) else Failure(id, "Failed to delete key"))
      else
        var found := ScanOf(env.order, request.key, request.value, SCAN_LIMIT);
        (s', Response(id, P.SUCCESS, ScanText.Printed(found)))
  }

  /** Reads one framed request, dispatches it, frames the response; no answer if it is refused. */
  function Serve(s: DbState, wire: bytes, env: Env): (DbState, Option<bytes>) {
    match P.Receive(wire)
    case Got(request, _) =>
      var (s', response) := Dispatch(s, request, env);
      (s', Some(P.Sent(response)))
    case Refused(_) => (s, None)
    case Starved => (s, None)
  }

  /** On these bytes the scan order, if a scan is asked for, is one the hash map can have. */
  ghost predicate FairWire(s: DbState, wire: bytes, env: Env) {
    P.Receive(wire).Got? ==> FairOrder(s, P.Receive(wire).message, env)
  }

  /** The bytes that are waited for arrive as a header and a body; anything less gets no answer. */
  lemma ServeByParts(s: DbState, wire: bytes, env: Env)
    ensures
      if |wire| < 4 || U32At(wire, 0) > P.MAX_MESSAGE_SIZE || |wire| - 4 < U32At(wire, 0) then
        !P.Receive(wire).Got? && Serve(s, wire, env) == (s, None)
      else
        var body := wire[4..4 + U32At(wire, 0)];
        match P.Decode(body)
        case Rejected(_) => Serve(s, wire, env) == (s, None)
        case Parsed(request) =>
          && P.Receive(wire).Got? && P.Receive(wire).message == request
          && Serve(s, wire, env) == (Dispatch(s, request, env).0, Some(P.Sent(Dispatch(s, request, env).1)))
  {
  }

  // ---------------------------------------------------------------- the object

  ghost function StateOf(db: PersistentDatabase): DbState
    reads db, db.wal
  {
    DbState(db.data, if db.wal == null then NewWal(false) else db.wal.State(), db.nextTransactionId, db.initialized)
  }

  /**
   One connection. `bodyLength` is the size of the body buffer, `outgoing` the frame handed to the
   last asynchronous write, `pending` the operations the I/O library holds for the handler, and
   `disconnects` counts the calls of its callback.
   */
  class ConnectionHandler {
    const database: PersistentDatabase?
    var active: bool
    var bodyLength: nat
    var outgoing: bytes
    var pending: seq<Pending>
    ghost var received: seq<uint32>
    ghost var sent: seq<uint32>
    var disconnects: nat

    ghost function Conn(): Handler
      reads this
    {
      Handler(active, pending, [], received, sent, disconnects)
    }

    /** Alive and waiting for the next request. */
    predicate Awaiting()
      reads this
    {
      active && pending == [HeaderRead] && disconnects == 0
    }

    ghost predicate Ready()
      reads this, database, if database == null then {} else {database.wal}
    {
      database != null ==> database.Valid()
    }

    constructor (database: PersistentDatabase?)
      ensures this.database == database
      ensures Conn() == Settled(STARTED)
    {
      this.database, active, bodyLength, outgoing := database, true, 0, [];
      received, sent, disconnects := [], [], 0;
      pending := [HeaderRead];
    }

    method Stop()
      modifies `active
      ensures Conn() == DoHandler(old(Conn()), HandlerAction.Stop)
    {
      active := false;
    }

    method ReadHeader()
      modifies this
      ensures Conn() == old(Conn()).(pending := old(pending) + if old(active) then [HeaderRead] else [])
    {
      if !active {
        return;
      }
      pending := pending + [HeaderRead];
    }

    method OnHeaderRead(ec: Ec, header: bytes)
      requires pending == [HeaderRead] && |header| == 4
      modifies this
      ensures Conn() == Uninterrupted(old(Conn()), HeaderDone(0, ec, U32At(header, 0)))
      ensures pending == [BodyRead] ==> bodyLength == U32At(header, 0) <= P.MAX_MESSAGE_SIZE
      ensures outgoing == old(outgoing)
    {
      WithoutOnly(pending, 0);
      pending := [];
      if ec == NoError && active {
        var length := U32At(header, 0);
        if length > P.MAX_MESSAGE_SIZE {
          disconnects := disconnects + 1;
          return;
        }
        ReadBody(length);
      } else if ec != Aborted {
        disconnects := disconnects + 1;
      }
    }

    method ReadBody(length: nat)
      modifies this
      ensures Conn() == old(Conn()).(pending := old(pending) + if old(active) then [BodyRead] else [])
      ensures old(active) ==> bodyLength == length
      ensures outgoing == old(outgoing)
    {
      if !active {
        return;
      }
      bodyLength := length;
      pending := pending + [BodyRead];
    }

    method OnBodyRead(ec: Ec, body: bytes, env: Env)
      requires pending == [BodyRead] && Ready()
      requires database != null && P.Decode(body).Parsed? ==> FairOrder(StateOf(database), P.Decode(body).message, env)
      modifies this, if database == null then {} else {database, database.wal}
      ensures Ready() && (database != null ==> database.wal == old(database.wal))
      ensures Conn() == Uninterrupted(old(Conn()), BodyDone(0, ec, body))
      ensures ec != NoError || !old(active) || P.Decode(body).Rejected? ==>
                outgoing == old(outgoing) && (database != null ==> StateOf(database) == old(StateOf(database)))
      ensures ec == NoError && old(active) && P.Decode(body).Parsed? && database == null ==>
                outgoing == P.Sent(Failure(P.Decode(body).message.id, "Database not initialized"))
      ensures ec == NoError && old(active) && P.Decode(body).Parsed? && database != null ==>
                && StateOf(database) == Dispatch(old(StateOf(database)), P.Decode(body).message, env).0
                && outgoing == P.Sent(Dispatch(old(StateOf(database)), P.Decode(body).message, env).1)
    {
      BodyCallback(Conn(), ec, body);
      pending := [];
      if ec == NoError && active {
        var result := P.Deserialize(body);
        if result.Rejected? {
          disconnects := disconnects + 1;
          return;
        }
        received := received + [result.message.id];
        HandleRequest(result.message, env);
      } else if ec != Aborted {
        disconnects := disconnects + 1;
      }
    }

    method HandleRequest(request: Message, env: Env)
      requires Ready() && (database != null ==> FairOrder(StateOf(database), request, env))
      modifies this, if database == null then {} else {database, database.wal}
      ensures Ready() && (database != null ==> database.wal == old(database.wal))
      ensures Conn() == old(Conn()).(
                pending := old(pending) + if old(active) then [ResponseWrite] else [],
                sent := old(sent) + if old(active) then [request.id] else [])
      ensures database == null && old(active) ==> outgoing == P.Sent(Failure(request.id, "Database not initialized"))
      ensures database != null ==> StateOf(database) == Dispatch(old(StateOf(database)), request, env).0
      ensures database != null && old(active) ==>
                outgoing == P.Sent(Dispatch(old(StateOf(database)), request, env).1)
      ensures !old(active) ==> outgoing == old(outgoing)
    {
      if database == null {
        var text := Ascii("Database not initialized");
        WriteResponse(P.Message(P.ERROR, request.id, 0, ToU32(|text|), [], text));
        return;
      }
      ResponseCarriesRequestId(StateOf(database), request, env);
      var response := ProcessRequestSync(database, request, env);
      WriteResponse(response);
    }

    method WriteResponse(response: Message)
      modifies this
      ensures Conn() == old(Conn()).(
                pending := old(pending) + if old(active) then [ResponseWrite] else [],
                sent := old(sent) + if old(active) then [response.id] else [])
      ensures outgoing == if old(active) then P.Sent(response) else old(outgoing)
    {
      if !active {
        return;
      }
      var data := P.Serialize(response);
      outgoing := LE(ToU32(|data|), 4) + data;
      pending := pending + [ResponseWrite];
      sent := sent + [response.id];
    }

    method OnWritten(ec: Ec)
      requires pending == [ResponseWrite]
      modifies this
      ensures Conn() == Uninterrupted(old(Conn()), WriteDone(0, ec))
    {
      WithoutOnly(pending, 0);
      pending := [];
      if ec == NoError && active {
        ReadHeader();
      } else if ec != Aborted {
        disconnects := disconnects + 1;
      }
    }

    static method ProcessRequestSync(database: PersistentDatabase, request: Message, env: Env) returns (response: Message)
      requires database.Valid() && FairOrder(StateOf(database), request, env)
      modifies database`data, database`nextTransactionId, database.wal
      ensures database.Valid()
      ensures (StateOf(database), response) == Dispatch(old(StateOf(database)), request, env)
    {
      var mtype: byte;
      var value: bytes;
      if request.mtype == P.GET {
        var txn := database.BeginTransaction();
        if txn != null {
          var found := txn.Get(request.key);
          if found != [] {
            mtype, value := P.SUCCESS, found;
          } else {
            mtype, value := P.ERROR, Ascii("Key not found");
          }
        } else {
          mtype, value := P.ERROR, Ascii("Failed to begin transaction");
        }
      } else if request.mtype == P.PUT {
        var txn := database.BeginTransaction();
        if txn != null {
          var result := txn.Put(request.key, request.value, env.op);
          if result == Success {
            var _ := txn.Commit(env.commit);
            mtype, value := P.SUCCESS, Ascii("OK");
          } else {
            mtype, value := P.ERROR, Ascii("Failed to put value");
          }
        } else {
          mtype, value := P.ERROR, Ascii("Failed to begin transaction");
        }
      } else if request.mtype == P.DELETE {
        var txn := database.BeginTransaction();
        if txn != null {
          var result := txn.Del(request.key, env.op);
          if result == Success {
            var _ := txn.Commit(env.commit);
            mtype, value := P.SUCCESS, Ascii("OK");
          } else {
            mtype, value := P.ERROR, Ascii("Failed to delete key");
          }
        } else {
          mtype, value := P.ERROR, Ascii("Failed to begin transaction");
        }
      } else if request.mtype == P.SCAN {
        var txn := database.BeginTransaction();
        if txn != null {
          var results := txn.Scan(env.order, request.key, request.value, SCAN_LIMIT);
          mtype := P.SUCCESS;
          value := ScanText.Print(results);
        } else {
          mtype, value := P.ERROR, Ascii("Failed to begin transaction");
        }
      } else if request.mtype == P.PING {
        mtype, value := P.PONG, Ascii("PONG");
      } else {
        mtype, value := P.ERROR, Ascii("Unsupported operation");
      }
      response := P.Message(mtype, request.id, 0, ToU32(|value|), [], value);
    }

    /** The two reads of one turn, on these bytes: the body, unless they end or are refused before. */
    method ReadRequest(wire: bytes, env: Env) returns (body: Option<bytes>)
      requires Awaiting() && Ready()
      modifies this, if database == null then {} else {database, database.wal}
      ensures Ready() && (database != null ==> database.wal == old(database.wal) && StateOf(database) == old(StateOf(database)))
      ensures body == if |wire| < 4 || U32At(wire, 0) > P.MAX_MESSAGE_SIZE || |wire| - 4 < U32At(wire, 0) then None
                      else Some(wire[4..4 + U32At(wire, 0)])
      ensures if body.Some? then active && pending == [BodyRead] && disconnects == 0 else !Awaiting()
    {
      if |wire| < 4 {
        OnHeaderRead(Ec.Failed, [0, 0, 0, 0]);
        return None;
      }
      assert wire[..4][0..4] == wire[0..4];
      OnHeaderRead(NoError, wire[..4]);
      if pending != [BodyRead] {
        return None;
      }
      if |wire| - 4 < bodyLength {
        OnBodyRead(Ec.Failed, [], env);
        return None;
      }
      return Some(wire[4..4 + bodyLength]);
    }

    /**
     One turn of the connection as the peer sees it: these bytes arrive and the stream then ends
     or waits; the response, if there is one, is written whole.
     */
    method Exchange(wire: bytes, env: Env) returns (reply: Option<bytes>)
      requires database != null && database.Valid() && FairWire(StateOf(database), wire, env)
      modifies this, database, database.wal
      ensures database.Valid() && database.wal == old(database.wal)
      ensures old(Awaiting()) ==> (StateOf(database), reply) == Serve(old(StateOf(database)), wire, env)
      ensures old(Awaiting()) ==> (reply.Some? <==> Awaiting())
      ensures !old(Awaiting()) ==> reply == None && StateOf(database) == old(StateOf(database)) && !Awaiting()
    {
      if !Awaiting() {
        return None;
      }
      ServeByParts(StateOf(database), wire, env);
      var body := ReadRequest(wire, env);
      if body == None {
        return None;
      }
      OnBodyRead(NoError, body.value, env);
      if pending != [ResponseWrite] {
        return None;
      }
      reply := Some(outgoing);
      OnWritten(NoError);
    }
  }

  // ---------------------------------------------------------------- any traffic

  /** Every answer carries the id of its request, and true lengths when its value is under 4 GiB. */
  lemma ResponseCarriesRequestId(s: DbState, request: Message, env: Env)
    ensures Dispatch(s, request, env).1.id == request.id
    ensures Dispatch(s, request, env).1.key == []
    ensures var r := Dispatch(s, request, env).1;
            |r.value| < TWO_32 ==> r.LengthsTrue()
  {
  }

  /** Nothing but a PUT or a DELETE changes the map, the log or whether the database is in use. */
  lemma OtherRequestsChangeNothing(s: DbState, request: Message, env: Env)
    requires request.mtype !in {2, 3}
    ensures Dispatch(s, request, env).0.(nextId := s.nextId) == s
  {
  }

  /** Only a PING is answered PONG; unknown types, and all else before initialization, are refused. */
  lemma AnswerTypes(s: DbState, request: Message, env: Env)
    ensures var (s', response) := Dispatch(s, request, env);
            && (response.mtype == 6 <==> request.mtype == 5)
            && response.mtype in {6, 7, 8}
            && (request.mtype == 5 ==> response.value == Ascii("PONG"))
            && (request.mtype !in {1, 2, 3, 4, 5} ==>
                  response.mtype == 7 && response.value == Ascii("Unsupported operation"))
            && (!s.initialized && request.mtype in {1, 2, 3, 4} ==>
                  s' == s && response.mtype == 7 && response.value == Ascii("Failed to begin transaction"))
            && s'.nextId == (if s.initialized && request.mtype in {1, 2, 3, 4} then NextId(s.nextId) else s.nextId)
  {
  }

  /** A GET succeeds exactly when there is something to return. */
  lemma GetAnswer(s: DbState, request: Message, env: Env)
    requires s.initialized && request.mtype == 1
    ensures var response := Dispatch(s, request, env).1;
            && (response.mtype == 8 <==> request.key in s.data && s.data[request.key] != [])
            && response.value == if response.mtype == 8 then s.data[request.key] else Ascii("Key not found")
  {
  }

  /** A PUT succeeds exactly when it is logged, and then the map holds the pair; else the key is gone. */
  lemma PutAnswer(s: DbState, request: Message, env: Env)
    requires s.initialized && request.mtype == 2
    ensures var (s', response) := Dispatch(s, request, env);
            && (response.mtype == 8 <==> s.wal.good && env.op.outcome == Wrote)
            && response.value == (if response.mtype == 8 then Ascii("OK") else Ascii("Failed to put value"))
            && s'.data == (if response.mtype == 8 then s.data[request.key := request.value] else s.data - {request.key})
            && s'.initialized
  {
  }

  /** A DELETE succeeds exactly when the key is there and the DELETE is logged; else nothing changes. */
  lemma DelAnswer(s: DbState, request: Message, env: Env)
    requires s.initialized && request.mtype == 3
    ensures var (s', response) := Dispatch(s, request, env);
            && (response.mtype == 8 <==> request.key in s.data && s.wal.good && env.op.outcome == Wrote)
            && response.value == (if response.mtype == 8 then Ascii("OK") else Ascii("Failed to delete key"))
            && s'.data == (if response.mtype == 8 then s.data - {request.key} else s.data)
            && s'.initialized
  {
  }

  /** A SCAN is answered with a printed scan of the map from key to value, of at most 1000 pairs. */
  lemma ScanAnswerIsScan(s: DbState, request: Message, env: Env) returns (found: Pairs)
    requires s.initialized && request.mtype == 4 && FairOrder(s, request, env)
    ensures IsScan(s.data, request.key, request.value, 1000, found)
    ensures Dispatch(s, request, env).1.mtype == 8 && Dispatch(s, request, env).1.value == ScanText.Printed(found)
  {
    found := ScanOf(env.order, request.key, request.value, 1000);
    ScanOfIsScan(s.data, env.order, request.key, request.value, 1000);
  }

  /** The pair came in through one message. */
  predicate FitsMessage(key: bytes, value: bytes) {
    |key| <= P.MAX_KEY_SIZE && P.HEADER_SIZE + |key| + |value| <= P.MAX_MESSAGE_SIZE
  }

  ghost predicate Bounded(data: KeyValues) {
    forall key | key in data :: FitsMessage(key, data[key])
  }

  function ServeAll(s: DbState, wires: seq<bytes>, envs: seq<Env>): DbState
    requires |wires| == |envs|
  {
    if wires == [] then s
    else
      var n := |wires| - 1;
      Serve(ServeAll(s, wires[..n], envs[..n]), wires[n], envs[n]).0
  }

  lemma ServeKeepsBounded(s: DbState, wire: bytes, env: Env)
    requires Bounded(s.data)
    ensures Bounded(Serve(s, wire, env).0.data)
  {
  }

  /** Whatever bytes clients send and whatever appends fail, the stored pairs stay within bounds. */
  lemma {:induction false} StoredPairsStayBounded(s: DbState, wires: seq<bytes>, envs: seq<Env>)
    requires |wires| == |envs| && Bounded(s.data)
    ensures Bounded(ServeAll(s, wires, envs).data)
  {
    if wires != [] {
      var n := |wires| - 1;
      StoredPairsStayBounded(s, wires[..n], envs[..n]);
      ServeKeepsBounded(ServeAll(s, wires[..n], envs[..n]), wires[n], envs[n]);
    }
  }

  /** This pair was the key and value of a message someone received. */
  ghost predicate CameIn(key: bytes, value: bytes) {
    exists wire :: P.Receive(wire).Got? && P.Receive(wire).message.key == key && P.Receive(wire).message.value == value
  }

  /** The same for handlers on any number of threads, interleaved step by step. */
  lemma InterleavedPairsStayBounded(actions: seq<T.Action>, s: T.State)
    requires T.Reached(actions, s)
    requires forall a: T.Action | a in actions && a.EnterWrite? && a.change.SetTo? :: CameIn(a.change.key, a.change.value)
    ensures Bounded(s.data)
  {
    var fits := (key: bytes, value: bytes) => FitsMessage(key, value);
    forall key, value | CameIn(key, value)
      ensures FitsMessage(key, value)
    {
      var wire :| P.Receive(wire).Got? && P.Receive(wire).message.key == key && P.Receive(wire).message.value == value;
      P.ReceivedIsDeliverable(wire);
    }
    T.StoredPairsPass(actions, s, fits);
  }

  /** The answer to any GET, PUT, DELETE or PING over bounded pairs passes the client's size checks. */
  lemma AnswersAreDeliverable(s: DbState, request: Message, env: Env)
    requires Bounded(s.data) && request.mtype != P.SCAN
    ensures var response := Dispatch(s, request, env).1;
            P.Receive(P.Sent(response)) == P.Got(response, [])
  {
    var response := Dispatch(s, request, env).1;
    assert |response.value| <= 1048563;
    P.DeliveredIff(response, []);
    assert P.Sent(response) + [] == P.Sent(response);
  }

  /** Every request within the size limits reaches the dispatcher as it was sent. */
  lemma DeliverableIsServed(s: DbState, request: Message, env: Env)
    requires request.Deliverable()
    ensures Serve(s, P.Sent(request), env)
         == (Dispatch(s, request, env).0, Some(P.Sent(Dispatch(s, request, env).1)))
  {
    P.DeliveredIff(request, []);
    assert P.Sent(request) + [] == P.Sent(request);
  }

  /** A scan's answer is accepted if and only if its text fits one message. */
  lemma ScanAnswerIsDeliverableIff(s: DbState, request: Message, env: Env)
    requires s.initialized && request.mtype == P.SCAN
    ensures var text := ScanText.Printed(ScanOf(env.order, request.key, request.value, SCAN_LIMIT));
            var response := Dispatch(s, request, env).1;
            P.Receive(P.Sent(response)) == P.Got(response, [])
            <==> P.HEADER_SIZE + |text| <= P.MAX_MESSAGE_SIZE
  {
    var response := Dispatch(s, request, env).1;
    P.DeliveredIff(response, []);
    assert P.Sent(response) + [] == P.Sent(response);
  }

  /**
   The log record of a PUT that a client can send is within the log reader's limit if and only if
   key and value together have at most 1048551 bytes: twelve bytes short of what is accepted.
   */
  lemma LoggedPutIsReadableIff(id: uint64, key: bytes, value: bytes, now: uint64)
    requires FitsMessage(key, value)
    ensures Fits(Stamped(PutRecord(id, key, value), now)) <==> |key| + |value| <= 1048551
  {
  }

  /** A PUT within the message limits is acknowledged, and its frame is what the log file gains first. */
  lemma PutIsAcknowledged(s: DbState, request: Message, env: Env)
    requires s.initialized && s.wal.good && request.mtype == P.PUT && env.op.outcome == Wrote
    ensures var put := Stamped(PutRecord(s.nextId, request.key, request.value), env.op.now);
            && Dispatch(s, request, env).1 == Response(request.id, P.SUCCESS, Ascii("OK"))
            && s.wal.file + Frame(put) <= Dispatch(s, request, env).0.wal.file
  {
  }

  /**
   That acknowledged PUT is read back from the log if and only if it is within the log reader's
   limit; beyond it, reading stops in front of it, so every later record is lost as well.
   */
  lemma AcknowledgedPutSurvivesIff(w: Wal, id: uint64, key: bytes, value: bytes, now: uint64, later: seq<WALRecord>)
    requires AllFit(w.recs) && w.file == Frames(w.recs) && FitsMessage(key, value)
    ensures var put := Stamped(PutRecord(id, key, value), now);
            && (ReadAll(w.file + Frame(put)) == w.recs + [put] <==> |key| + |value| <= 1048551)
            && (|key| + |value| > 1048551 ==> ReadAll(w.file + Frame(put) + Frames(later)) == w.recs)
  {
    var put := Stamped(PutRecord(id, key, value), now);
    LoggedPutIsReadableIff(id, key, value, now);
    AppendOneFrameIff(w.recs, put);
    ReadBackIff(w.recs);
    if !Fits(put) {
      OversizedHidesTheRest(w.recs, put, later);
    }
  }

  const NEW_DATABASE: DbState := DbState(map[], NewWal(true), 1, true)

  /** With the key [1], one byte more than the log's reader takes. */
  const JUST_TOO_LARGE: bytes := seq(1048551, i => 0)

  const LARGE_PUT: Message := P.Message(P.PUT, 1, 1, 1048551, [1], JUST_TOO_LARGE)

  const ALL_LOGGED: Env := Env(LOGGED, LOGGED, [])

  /** A PUT that is within the message limits, is acknowledged and stored, and cannot be recovered. */
  lemma LargePutIsAcknowledgedAndLost()
    ensures LARGE_PUT.Deliverable() && |LARGE_PUT.key| + |LARGE_PUT.value| == 1048552
    ensures var (after, response) := Dispatch(NEW_DATABASE, LARGE_PUT, ALL_LOGGED);
            && response.mtype == P.SUCCESS
            && after.data == map[[1] := JUST_TOO_LARGE]
            && Recover(after.wal.file) == map[]
  {
    var put := Stamped(PutRecord(1, [1], JUST_TOO_LARGE), LOGGED.now);
    var commit := Stamped(CommitRecord(1), LOGGED.now);
    var after := Dispatch(NEW_DATABASE, LARGE_PUT, ALL_LOGGED).0;
    assert after.wal.file == [] + Frame(put) + Frame(commit);
    FramesOne(commit);
    AcknowledgedPutSurvivesIff(NewWal(true), 1, [1], JUST_TOO_LARGE, LOGGED.now, [commit]);
  }

  lemma OversizedHidesTheRest(recs: seq<WALRecord>, put: WALRecord, later: seq<WALRecord>)
    requires AllFit(recs) && put.LengthsTrue() && !Fits(put)
    ensures ReadAll(Frames(recs) + Frame(put) + Frames(later)) == recs
  {
    Associative(Frames(recs), Frame(put), Frames(later));
    ReadFittingFrames(recs, Frame(put) + Frames(later));
    StopAtOversizedFrame(put, Frames(later));
  }
}
