/**
 The client's calls through encoding, framing, dispatch and decoding, against a plain map.
 */
module EndToEnd {
  import opened Bytes
  import opened WalRecord
  import opened WalStream
  import opened LogFile
  import opened Replay
  import opened RangeScan
  import opened Database
  import opened Server
  import ScanText
  import P = Protocol

  /** The `std::runtime_error`s of the client. */
  datatype Exception = NotConnected | SendFailed | ReceiveError | GetFailed(reason: bytes) | ScanFailed(reason: bytes)

  /** `Hangs` is a call that waits for bytes that never come. */
  datatype Outcome<+T> = Returned(value: T) | Thrown(exception: Exception) | Hangs

  /** The fate of a request on its way out: sent whole, or failed after `written` bytes. */
  datatype Sending = Whole | Cut(written: nat)

  /**
   The connection as a client has it: the database, whether the server's handler waits for a
   request, and the bytes that came in and were not read.
   */
  datatype Link = Link(db: DbState, open: bool, inbox: bytes)

  function Request(mtype: byte, id: uint32, key: bytes, value: bytes): Message {
    P.Message(mtype, id, ToU32(|key|), ToU32(|value|), key, value)
  }

  /** The bytes of a request that get out; a failed send leaves off at least one. */
  function Wire(request: Message, sending: Sending): bytes {
    var frame := P.Sent(request);
    match sending
    case Whole => frame
    case Cut(written) => frame[..Min(written, |frame| - 1)]
  }

  /** The server takes one turn on these bytes; what it answers comes in behind what is unread. */
  function Transmit(l: Link, wire: bytes, env: Env): Link {
    if !l.open then l
    else
      match Serve(l.db, wire, env)
      case (db, Some(reply)) => Link(db, true, l.inbox + reply)
      case (db, None) => Link(db, false, l.inbox)
  }

  /**
   The client reads one reply, from the first unread byte on. A length over the limit is refused
   with the bytes behind it unread; a reply that ends early is waited for on an open connection.
   */
  function Heard(l: Link): (Link, Outcome<Message>) {
    match P.Receive(l.inbox)
    case Got(response, rest) => (l.(inbox := rest), Returned(response))
    case Refused(rest) => (l.(inbox := rest), Thrown(ReceiveError))
    case Starved => if l.open then (l, Hangs) else (l.(inbox := []), Thrown(ReceiveError))
  }

  /** A request sent, served and answered. */
  function Ask(l: Link, request: Message, env: Env, sending: Sending): (Link, Outcome<Message>) {
    var l' := Transmit(l, Wire(request, sending), env);
    if sending.Cut? then (l', Thrown(SendFailed)) else Heard(l')
  }

  datatype Call = Get(key: bytes) | Put(key: bytes, value: bytes) | Del(key: bytes)

  datatype Answer = Value(value: bytes) | Ack(ok: bool) | Error(exception: Exception) | NoAnswer

  function RequestFor(call: Call, id: uint32): Message {
    match call
    case Get(key) => Request(P.GET, id, key, [])
    case Put(key, value) => Request(P.PUT, id, key, value)
    case Del(key) => Request(P.DELETE, id, key, [])
  }

  function Interpret(call: Call, outcome: Outcome<Message>): Answer {
    match outcome
    case Hangs => NoAnswer
    case Thrown(e) => Error(e)
    case Returned(response) =>
      if !call.Get? then Ack(response.mtype == P.SUCCESS)
      else if response.mtype == P.SUCCESS then Value(response.value)
      else Error(GetFailed(response.value))
  }

  /** The counter wraps around. */
  function NextRequestId(id: uint32): uint32 {
    if id + 1 < TWO_32 then id + 1 else 0
  }

  /** One client and the database behind the server. */
  datatype Session = Session(link: Link, requestId: uint32)

  function CallStep(s: Session, call: Call, env: Env, sending: Sending): (Session, Answer) {
    var id := NextRequestId(s.requestId);
    var (link, outcome) := Ask(s.link, RequestFor(call, id), env, sending);
    (Session(link, id), Interpret(call, outcome))
  }

  // ---------------------------------------------------------------- the object

  class DatabaseClient {
    const server: ConnectionHandler
    var connected: bool
    var requestId: uint32
    var inbox: bytes

    ghost predicate Ready()
      reads server.database, if server.database == null then {} else {server.database.wal}
    {
      server.database != null && server.database.Valid()
    }

    /** Everything behind the connection that a request may change. */
    ghost function Footprint(): set<object?>
      reads server.database
    {
      {server, server.database} + if server.database == null then {} else {server.database.wal}
    }

    /** The connection, with whatever a refused reply left unread on it. */
    ghost function Line(): Link
      requires server.database != null
      reads this, server, server.database, server.database.wal
    {
      Link(StateOf(server.database), server.Awaiting(), inbox)
    }

    ghost function State(): Session
      requires server.database != null
      reads this, server, server.database, server.database.wal
    {
      Session(Line(), requestId)
    }

    constructor (server: ConnectionHandler)
      ensures this.server == server && !connected && requestId == 0 && inbox == []
    {
      this.server, connected, requestId, inbox := server, false, 0, [];
    }

    method SendRequest(request: Message, env: Env, sending: Sending) returns (outcome: Outcome<Message>)
      requires Ready()
      requires request.mtype == P.SCAN ==> FairWire(StateOf(server.database), Wire(request, sending), env)
      modifies `inbox, Footprint()
      ensures Ready() && server.database.wal == old(server.database.wal)
      ensures connected ==> (Line(), outcome) == Ask(old(Line()), request, env, sending)
      ensures !connected ==> outcome == Thrown(NotConnected) && Line() == old(Line())
    {
      if !connected {
        return Thrown(NotConnected);
      }
      if request.mtype != P.SCAN {
        UnfairOnlyForScan(request, StateOf(server.database), env, sending);
      }
      var sent := SendMessage(request, env, sending);
      if !sent {
        return Thrown(SendFailed);
      }
      outcome := ReceiveMessage();
    }

    method SendMessage(message: Message, env: Env, sending: Sending) returns (sent: bool)
      requires Ready() && FairWire(StateOf(server.database), Wire(message, sending), env)
      modifies `inbox, Footprint()
      ensures Ready() && server.database.wal == old(server.database.wal)
      ensures Line() == Transmit(old(Line()), Wire(message, sending), env)
      ensures sent <==> sending.Whole?
    {
      var data := P.Serialize(message);
      var wire := FrameOf(data);
      if sending.Cut? {
        wire := wire[..Min(sending.written, |wire| - 1)];
      }
      assert wire == Wire(message, sending);
      var reply := server.Exchange(wire, env);
      if reply.Some? {
        inbox := inbox + reply.value;
      }
      return sending.Whole?;
    }

    method ReceiveMessage() returns (outcome: Outcome<Message>)
      requires server.database != null
      modifies `inbox
      ensures (Line(), outcome) == Heard(old(Line()))
    {
      if |inbox| < 4 || (U32At(inbox, 0) <= P.MAX_MESSAGE_SIZE && |inbox| - 4 < U32At(inbox, 0)) {
        if server.Awaiting() {
          return Hangs;
        }
        inbox := [];
        return Thrown(ReceiveError);
      }
      var length := U32At(inbox, 0);
      if length > P.MAX_MESSAGE_SIZE {
        inbox := inbox[4..];
        return Thrown(ReceiveError);
      }
      var result := P.Deserialize(inbox[4..4 + length]);
      inbox := inbox[4 + length..];
      return if result.Parsed? then Returned(result.message) else Thrown(ReceiveError);
    }

    method Get(key: bytes, env: Env, sending: Sending) returns (answer: Answer)
      requires Ready()
      modifies `requestId, `inbox, Footprint()
      ensures Ready()
      ensures requestId == NextRequestId(old(requestId))
      ensures connected ==> Line() == CallStep(old(State()), Call.Get(key), env, sending).0.link
      ensures connected ==> answer == CallStep(old(State()), Call.Get(key), env, sending).1
      ensures !connected ==> answer == Error(NotConnected) && Line() == old(Line())
    {
      requestId := NextRequestId(requestId);
      var request := P.Message(P.GET, requestId, ToU32(|key|), 0, key, []);
      assert request == RequestFor(Call.Get(key), requestId);
      var outcome := SendRequest(request, env, sending);
      answer :=
        match outcome
        case Hangs => NoAnswer
        case Thrown(e) => Error(e)
        case Returned(response) =>
          if response.mtype == P.SUCCESS then Value(response.value) else Error(GetFailed(response.value));
      assert answer == Interpret(Call.Get(key), outcome);
    }

    method Put(key: bytes, value: bytes, env: Env, sending: Sending) returns (answer: Answer)
      requires Ready()
      modifies `requestId, `inbox, Footprint()
      ensures Ready()
      ensures requestId == NextRequestId(old(requestId))
      ensures connected ==> Line() == CallStep(old(State()), Call.Put(key, value), env, sending).0.link
      ensures connected ==> answer == CallStep(old(State()), Call.Put(key, value), env, sending).1
      ensures !connected ==> answer == Error(NotConnected) && Line() == old(Line())
    {
      requestId := NextRequestId(requestId);
      var request := P.Message(P.PUT, requestId, ToU32(|key|), ToU32(|value|), key, value);
      assert request == RequestFor(Call.Put(key, value), requestId);
      var outcome := SendRequest(request, env, sending);
      answer :=
        match outcome
        case Hangs => NoAnswer
        case Thrown(e) => Error(e)
        case Returned(response) => Ack(response.mtype == P.SUCCESS);
      assert answer == Interpret(Call.Put(key, value), outcome);
    }

    method Del(key: bytes, env: Env, sending: Sending) returns (answer: Answer)
      requires Ready()
      modifies `requestId, `inbox, Footprint()
      ensures Ready()
      ensures requestId == NextRequestId(old(requestId))
      ensures connected ==> Line() == CallStep(old(State()), Call.Del(key), env, sending).0.link
      ensures connected ==> answer == CallStep(old(State()), Call.Del(key), env, sending).1
      ensures !connected ==> answer == Error(NotConnected) && Line() == old(Line())
    {
      requestId := NextRequestId(requestId);
      var request := P.Message(P.DELETE, requestId, ToU32(|key|), 0, key, []);
      assert request == RequestFor(Call.Del(key), requestId);
      var outcome := SendRequest(request, env, sending);
      answer :=
        match outcome
        case Hangs => NoAnswer
        case Thrown(e) => Error(e)
        case Returned(response) => Ack(response.mtype == P.SUCCESS);
      assert answer == Interpret(Call.Del(key), outcome);
    }

    method Scan(start: bytes, end: bytes, limit: nat, env: Env, sending: Sending) returns (outcome: Outcome<Pairs>)
      requires Ready()
      requires FairWire(StateOf(server.database),
                        Wire(Request(P.SCAN, NextRequestId(requestId), start, end), sending), env)
      modifies `requestId, `inbox, Footprint()
      ensures Ready() && requestId == NextRequestId(old(requestId))
      ensures connected ==> Line() == AskScan(old(Line()), requestId, start, end, limit, env, sending).0
      ensures connected ==> outcome == AskScan(old(Line()), requestId, start, end, limit, env, sending).1
      ensures !connected ==> outcome == Thrown(NotConnected) && Line() == old(Line())
    {
      requestId := NextRequestId(requestId);
      var request := P.Message(P.SCAN, requestId, ToU32(|start|), ToU32(|end|), start, end);
      var answered := SendRequest(request, env, sending);
      match answered {
        case Hangs =>
          return Hangs;
        case Thrown(e) =>
          return Thrown(e);
        case Returned(response) =>
          if response.mtype != P.SUCCESS {
            return Thrown(ScanFailed(response.value));
          }
          var results := ScanText.Parse(response.value, limit);
          return Returned(results);
      }
    }
  }

  /** The scan order matters to no request but a scan; nothing else arrives as one. */
  lemma UnfairOnlyForScan(request: Message, s: DbState, env: Env, sending: Sending)
    requires request.mtype != P.SCAN
    ensures FairWire(s, Wire(request, sending), env)
  {
    var wire, body := Wire(request, sending), P.Encode(request);
    P.MessageLayout(request);
    if P.Receive(wire).Got? {
      assert wire[4] == P.Sent(request)[4] == body[0];
    }
  }

  // ---------------------------------------------------------------- the plain map

  /** A map whose GET cannot tell an empty value from an absent key. */
  function Ideal(m: KeyValues, call: Call): (KeyValues, Answer) {
    match call
    case Get(key) =>
      (m, if ValueOf(m, key) == [] then Error(GetFailed(Ascii("Key not found"))) else Value(m[key]))
    case Put(key, value) => (m[key := value], Ack(true))
    case Del(key) => if key in m then (m - {key}, Ack(true)) else (m, Ack(false))
  }

  predicate WithinLimits(call: Call) {
    match call
    case Get(key) => |key| <= P.MAX_KEY_SIZE
    case Put(key, value) => FitsMessage(key, value)
    case Del(key) => |key| <= P.MAX_KEY_SIZE
  }

  predicate AppendsSucceed(env: Env) {
    env.op.outcome == Wrote && env.commit.outcome == Wrote
  }

  /** The database is in use, and its log replays to its map. */
  ghost predicate InStep(s: DbState, m: KeyValues) {
    && s.initialized && s.wal.good && s.wal.file == Frames(s.wal.recs)
    && s.data == m && Bounded(m)
    && ReplayOn(map[], s.wal.recs) == m
  }

  lemma AppendKeepsReplay(w: Wal, r: WALRecord, io: Io, m: KeyValues)
    requires w.good && io.outcome == Wrote && w.file == Frames(w.recs) && ReplayOn(map[], w.recs) == m
    ensures var (w', ok) := Append(w, r, io.now, io.outcome);
            && ok && w'.good && w'.file == Frames(w'.recs)
            && w'.recs == w.recs + [Stamped(r, io.now)]
            && ReplayOn(map[], w'.recs) == Apply(m, r)
  {
    FramesSnoc(w.recs, Stamped(r, io.now));
    assert (w.recs + [Stamped(r, io.now)])[..|w.recs|] == w.recs;
  }

  /** This call is answered as the plain map answers it, and the database stays in step. */
  ghost predicate IsIdeal(s: DbState, m: KeyValues, call: Call, id: uint32, env: Env) {
    var (s', response) := Dispatch(s, RequestFor(call, id), env);
    && InStep(s', Ideal(m, call).0)
    && Interpret(call, Returned(response)) == Ideal(m, call).1
  }

  /** A logged PUT and the COMMIT behind it leave the log replaying to the changed map. */
  lemma PutIsLogged(w: Wal, m: KeyValues, id: uint64, key: bytes, value: bytes, env: Env)
    requires w.good && w.file == Frames(w.recs) && ReplayOn(map[], w.recs) == m && AppendsSucceed(env)
    ensures var e := PutEffect(m, w, id, key, value, env.op);
            var w' := CommitEffect(e.data, e.wal, e.hasWrites, id, env.commit).wal;
            && e.result == Success && e.data == m[key := value]
            && w'.good && w'.file == Frames(w'.recs) && ReplayOn(map[], w'.recs) == m[key := value]
  {
    AppendKeepsReplay(w, PutRecord(id, key, value), env.op, m);
    var e := PutEffect(m, w, id, key, value, env.op);
    AppendKeepsReplay(e.wal, CommitRecord(id), env.commit, m[key := value]);
  }

  lemma PutIsDispatched(s: DbState, key: bytes, value: bytes, id: uint32, env: Env)
    requires s.initialized && PutEffect(s.data, s.wal, s.nextId, key, value, env.op).result == Success
    ensures var e := PutEffect(s.data, s.wal, s.nextId, key, value, env.op);
            Dispatch(s, RequestFor(Call.Put(key, value), id), env)
            == (s.(data := e.data, wal := CommitEffect(e.data, e.wal, e.hasWrites, s.nextId, env.commit).wal,
                   nextId := NextId(s.nextId)),
                Response(id, P.SUCCESS, Ascii("OK")))
  {
  }

  lemma PutIsIdeal(s: DbState, m: KeyValues, key: bytes, value: bytes, id: uint32, env: Env)
    requires InStep(s, m) && FitsMessage(key, value) && AppendsSucceed(env)
    ensures IsIdeal(s, m, Call.Put(key, value), id, env)
  {
    PutIsLogged(s.wal, m, s.nextId, key, value, env);
    PutIsDispatched(s, key, value, id, env);
  }

  lemma DelIsIdeal(s: DbState, m: KeyValues, key: bytes, id: uint32, env: Env)
    requires InStep(s, m) && AppendsSucceed(env)
    ensures IsIdeal(s, m, Call.Del(key), id, env)
  {
    if key in m {
      AppendKeepsReplay(s.wal, DeleteRecord(s.nextId, key), env.op, m);
      var e := DelEffect(s.data, s.wal, false, s.nextId, key, env.op);
      AppendKeepsReplay(e.wal, CommitRecord(s.nextId), env.commit, m - {key});
    }
  }

  lemma DispatchIsIdeal(s: DbState, m: KeyValues, call: Call, id: uint32, env: Env)
    requires InStep(s, m) && WithinLimits(call) && AppendsSucceed(env)
    ensures IsIdeal(s, m, call, id, env)
  {
    match call
    case Get(key) =>
    case Put(key, value) => PutIsIdeal(s, m, key, value, id, env);
    case Del(key) => DelIsIdeal(s, m, key, id, env);
  }

  /** The client can make a call: the server waits for it and nothing is left unread. */
  ghost predicate Online(l: Link) {
    l.open && l.inbox == []
  }

  /** On such a link a deliverable request with a deliverable answer gets that answer, and the link stays so. */
  lemma AskOnline(l: Link, request: Message, env: Env)
    requires Online(l) && request.Deliverable() && Dispatch(l.db, request, env).1.Deliverable()
    ensures var (db, response) := Dispatch(l.db, request, env);
            Ask(l, request, env, Whole) == (Link(db, true, []), Returned(response))
  {
    var (db, response) := Dispatch(l.db, request, env);
    RequestTransmitted(l, request, env);
    AnswerHeard(Link(db, true, P.Sent(response)), response);
  }

  lemma RequestTransmitted(l: Link, request: Message, env: Env)
    requires Online(l) && request.Deliverable()
    ensures var (db, response) := Dispatch(l.db, request, env);
            Transmit(l, P.Sent(request), env) == Link(db, true, P.Sent(response))
  {
    DeliverableIsServed(l.db, request, env);
    assert [] + P.Sent(Dispatch(l.db, request, env).1) == P.Sent(Dispatch(l.db, request, env).1);
  }

  lemma AnswerHeard(l: Link, response: Message)
    requires l.inbox == P.Sent(response) && response.Deliverable()
    ensures Heard(l) == (l.(inbox := []), Returned(response))
  {
    P.DeliveredIff(response, []);
    assert P.Sent(response) + [] == P.Sent(response);
  }

  lemma CallIsIdeal(s: Session, m: KeyValues, call: Call, env: Env)
    requires Online(s.link) && InStep(s.link.db, m) && WithinLimits(call) && AppendsSucceed(env)
    ensures var (s', answer) := CallStep(s, call, env, Whole);
            && Online(s'.link) && InStep(s'.link.db, Ideal(m, call).0)
            && answer == Ideal(m, call).1
  {
    var id := NextRequestId(s.requestId);
    DispatchIsIdeal(s.link.db, m, call, id, env);
    AnswersAreDeliverable(s.link.db, RequestFor(call, id), env);
    AskOnline(s.link, RequestFor(call, id), env);
  }

  function CallAll(s: Session, calls: seq<Call>, envs: seq<Env>): (r: (Session, seq<Answer>))
    requires |calls| == |envs|
    ensures |r.1| == |calls|
  {
    if calls == [] then (s, [])
    else
      var n := |calls| - 1;
      var (before, answers) := CallAll(s, calls[..n], envs[..n]);
      var (after, answer) := CallStep(before, calls[n], envs[n], Whole);
      (after, answers + [answer])
  }

  function IdealAll(m: KeyValues, calls: seq<Call>): (KeyValues, seq<Answer>) {
    if calls == [] then (m, [])
    else
      var n := |calls| - 1;
      var (before, answers) := IdealAll(m, calls[..n]);
      var (after, answer) := Ideal(before, calls[n]);
      (after, answers + [answer])
  }

  /**
   Any sequence of calls within the size limits, with successful appends, is answered as the plain
   map answers it, the log's records always replay to that map, and the connection stays in use.
   */
  lemma {:induction false} SessionRefinesMap(s: Session, m: KeyValues, calls: seq<Call>, envs: seq<Env>)
    requires |calls| == |envs| && Online(s.link) && InStep(s.link.db, m)
    requires forall call | call in calls :: WithinLimits(call)
    requires forall env | env in envs :: AppendsSucceed(env)
    ensures CallAll(s, calls, envs).1 == IdealAll(m, calls).1
    ensures InStep(CallAll(s, calls, envs).0.link.db, IdealAll(m, calls).0)
    ensures Online(CallAll(s, calls, envs).0.link)
  {
    if calls != [] {
      var n := |calls| - 1;
      SessionRefinesMap(s, m, calls[..n], envs[..n]);
      assert WithinLimits(calls[n]) && AppendsSucceed(envs[n]);
      CallIsIdeal(CallAll(s, calls[..n], envs[..n]).0, IdealAll(m, calls[..n]).0, calls[n], envs[n]);
    }
  }

  lemma IdealOneMore(m: KeyValues, calls: seq<Call>, call: Call)
    ensures var (before, answers) := IdealAll(m, calls);
            var (after, answer) := Ideal(before, call);
            IdealAll(m, calls + [call]) == (after, answers + [answer])
  {
    assert (calls + [call])[..|calls|] == calls;
  }

  /** An empty value is put, acknowledged and in the map, and yet the next GET throws. */
  lemma EmptyValueIsNotFound()
    ensures var s := Session(Link(NEW_DATABASE, true, []), 0);
            var (after, answers) := CallAll(s, [Call.Put([1], []), Call.Get([1])], [ALL_LOGGED, ALL_LOGGED]);
            && answers == [Ack(true), Error(GetFailed(Ascii("Key not found")))]
            && after.link.db.data == map[[1] := []]
  {
    var s := Session(Link(NEW_DATABASE, true, []), 0);
    var calls := [Call.Put([1], []), Call.Get([1])];
    IdealOneMore(map[], [], Call.Put([1], []));
    IdealOneMore(map[], [Call.Put([1], [])], Call.Get([1]));
    assert [] + [Call.Put([1], [])] == [Call.Put([1], [])] && [Call.Put([1], [])] + [Call.Get([1])] == calls;
    SessionRefinesMap(s, map[], calls, [ALL_LOGGED, ALL_LOGGED]);
  }

  /** The log record of this call is within the log reader's limit. */
  predicate Loggable(call: Call) {
    call.Put? ==> |call.key| + |call.value| <= 1048551
  }

  lemma OneMoreFitsIff(rs: seq<WALRecord>, r: WALRecord)
    ensures AllFit(rs + [r]) <==> AllFit(rs) && Fits(r)
  {
  }

  lemma AppendFitsIff(w: Wal, r: WALRecord, io: Io)
    requires w.good && io.outcome == Wrote
    ensures AllFit(Append(w, r, io.now, io.outcome).0.recs) <==> AllFit(w.recs) && Fits(r)
  {
    OneMoreFitsIff(w.recs, Stamped(r, io.now));
  }

  lemma CallFitsIff(s: DbState, m: KeyValues, call: Call, id: uint32, env: Env)
    requires InStep(s, m) && WithinLimits(call) && AppendsSucceed(env)
    ensures AllFit(Dispatch(s, RequestFor(call, id), env).0.wal.recs) <==> AllFit(s.wal.recs) && Loggable(call)
  {
    match call
    case Get(key) =>
    case Put(key, value) =>
      AppendFitsIff(s.wal, PutRecord(s.nextId, key, value), env.op);
      var e := PutEffect(s.data, s.wal, s.nextId, key, value, env.op);
      AppendFitsIff(e.wal, CommitRecord(s.nextId), env.commit);
    case Del(key) =>
      if key in m {
        AppendFitsIff(s.wal, DeleteRecord(s.nextId, key), env.op);
        var e := DelEffect(s.data, s.wal, false, s.nextId, key, env.op);
        AppendFitsIff(e.wal, CommitRecord(s.nextId), env.commit);
      }
  }

  ghost predicate AllLoggable(calls: seq<Call>) {
    forall call | call in calls :: Loggable(call)
  }

  lemma {:induction false} SessionFitsIff(s: Session, m: KeyValues, calls: seq<Call>, envs: seq<Env>)
    requires |calls| == |envs| && Online(s.link) && InStep(s.link.db, m)
    requires forall call | call in calls :: WithinLimits(call)
    requires forall env | env in envs :: AppendsSucceed(env)
    ensures AllFit(CallAll(s, calls, envs).0.link.db.wal.recs) <==> AllFit(s.link.db.wal.recs) && AllLoggable(calls)
  {
    if calls != [] {
      var n := |calls| - 1;
      assert calls == calls[..n] + [calls[n]];
      SessionFitsIff(s, m, calls[..n], envs[..n]);
      SessionRefinesMap(s, m, calls[..n], envs[..n]);
      assert WithinLimits(calls[n]) && AppendsSucceed(envs[n]);
      StepFitsIff(CallAll(s, calls[..n], envs[..n]).0, IdealAll(m, calls[..n]).0, calls[n], envs[n]);
    }
  }

  lemma StepFitsIff(s: Session, m: KeyValues, call: Call, env: Env)
    requires Online(s.link) && InStep(s.link.db, m) && WithinLimits(call) && AppendsSucceed(env)
    ensures AllFit(CallStep(s, call, env, Whole).0.link.db.wal.recs) <==> AllFit(s.link.db.wal.recs) && Loggable(call)
  {
    var id := NextRequestId(s.requestId);
    CallFitsIff(s.link.db, m, call, id, env);
    AnswersAreDeliverable(s.link.db, RequestFor(call, id), env);
    AskOnline(s.link, RequestFor(call, id), env);
  }

  /**
   After any such session over a readable log, the file reads back as all the records written if
   and only if every PUT had at most 1048551 bytes of key and value; recovery then gives the plain
   map.
   */
  lemma SessionRecoversIff(s: Session, m: KeyValues, calls: seq<Call>, envs: seq<Env>)
    requires |calls| == |envs| && Online(s.link) && InStep(s.link.db, m) && AllFit(s.link.db.wal.recs)
    requires forall call | call in calls :: WithinLimits(call)
    requires forall env | env in envs :: AppendsSucceed(env)
    ensures var wal := CallAll(s, calls, envs).0.link.db.wal;
            && (ReadAll(wal.file) == wal.recs <==> AllLoggable(calls))
            && (AllLoggable(calls) ==> Recover(wal.file) == IdealAll(m, calls).0)
  {
    SessionRefinesMap(s, m, calls, envs);
    SessionFitsIff(s, m, calls, envs);
    var wal := CallAll(s, calls, envs).0.link.db.wal;
    ReadBackIff(wal.recs);
  }

  /**
   A PUT with key and value under 4 GiB is answered, with nothing left unread, and the connection
   stays in use, if and only if it is within the size limits; otherwise nothing changes, the
   server gives the connection up and the client throws.
   */
  lemma PutArrivesIff(l: Link, id: uint32, key: bytes, value: bytes, env: Env)
    requires Online(l) && |key| < TWO_32 && |value| < TWO_32
    ensures var request := Request(P.PUT, id, key, value);
            var (l', outcome) := Ask(l, request, env, Whole);
            && (Online(l') <==> FitsMessage(key, value))
            && if FitsMessage(key, value) then
                 var (db, response) := Dispatch(l.db, request, env);
                 l' == Link(db, true, []) && outcome == Returned(response)
               else
                 l' == Link(l.db, false, []) && outcome == Thrown(ReceiveError)
  {
    var request := Request(P.PUT, id, key, value);
    if FitsMessage(key, value) {
      PutAnswerIsShort(l.db, request, env);
      AskOnline(l, request, env);
    } else {
      RefusedRequestThrows(l, request, env);
    }
  }

  /** The server gives the connection up on a request over the limits, and the client throws. */
  lemma RefusedRequestThrows(l: Link, request: Message, env: Env)
    requires Online(l) && request.LengthsTrue() && !request.Deliverable()
    ensures Ask(l, request, env, Whole) == (Link(l.db, false, []), Thrown(ReceiveError))
  {
    if P.Receive(P.Sent(request)).Got? {
      ReceivedHeader(request);
    }
  }

  lemma PutAnswerIsShort(s: DbState, request: Message, env: Env)
    requires request.mtype == P.PUT
    ensures Dispatch(s, request, env).1.Deliverable()
  {
  }

  // ---------------------------------------------------------------- what an answer means

  /** Keys and values under 4 GiB, so that the lengths in the request are true. */
  predicate SizedCall(call: Call) {
    |call.key| < TWO_32 && (call.Put? ==> |call.value| < TWO_32)
  }

  /** A call over the size limits throws, changes nothing and loses the connection. */
  lemma OutsideLimitsThrows(s: Session, call: Call, env: Env)
    requires Online(s.link) && SizedCall(call) && !WithinLimits(call)
    ensures CallStep(s, call, env, Whole).1 == Error(ReceiveError)
    ensures CallStep(s, call, env, Whole).0.link == Link(s.link.db, false, [])
  {
    RefusedRequestThrows(s.link, RequestFor(call, NextRequestId(s.requestId)), env);
  }

  /** What is unread stays unread in front of what comes in, and on a lost connection nothing happens. */
  lemma UnreadStays(l: Link, wire: bytes, env: Env)
    ensures l.inbox <= Transmit(l, wire, env).inbox
    ensures !l.open ==> Transmit(l, wire, env) == l
    ensures !Transmit(l, wire, env).open ==> Transmit(l, wire, env).inbox == l.inbox
  {
  }

  /** So does every call on a connection that is lost. */
  lemma LostConnectionThrows(s: Session, call: Call, env: Env)
    requires !s.link.open && s.link.inbox == []
    ensures CallStep(s, call, env, Whole).1 == Error(ReceiveError)
    ensures CallStep(s, call, env, Whole).0.link == s.link
  {
  }

  /** A request that does not get out whole throws; what got out is a proper part of it. */
  lemma CutSendThrows(s: Session, call: Call, env: Env, written: nat)
    ensures var request := RequestFor(call, NextRequestId(s.requestId));
            var wire := Wire(request, Cut(written));
            && wire < P.Sent(request) && |wire| == Min(written, |P.Sent(request)| - 1)
            && CallStep(s, call, env, Cut(written)).1 == Error(SendFailed)
            && CallStep(s, call, env, Cut(written)).0.link == Transmit(s.link, wire, env)
  {
  }

  /** Whatever the state of the link, what a request gets is what the first unread bytes say. */
  lemma AskedIsFirstUnread(l: Link, request: Message, env: Env)
    ensures var sent := Transmit(l, P.Sent(request), env);
            var (l', outcome) := Ask(l, request, env, Whole);
            match P.Receive(sent.inbox)
            case Got(response, rest) => outcome == Returned(response) && l' == sent.(inbox := rest)
            case Refused(rest) => outcome == Thrown(ReceiveError) && l' == sent.(inbox := rest)
            case Starved =>
              if sent.open then outcome == Hangs && l' == sent
              else outcome == Thrown(ReceiveError) && l' == Link(sent.db, false, [])
  {
  }

  /** So is the answer to a call. */
  lemma AnswersComeFromReplies(s: Session, call: Call, env: Env)
    ensures var request := RequestFor(call, NextRequestId(s.requestId));
            var l := Transmit(s.link, P.Sent(request), env);
            var answer := CallStep(s, call, env, Whole).1;
            match P.Receive(l.inbox)
            case Refused(_) => answer == Error(ReceiveError)
            case Starved => answer == if l.open then NoAnswer else Error(ReceiveError)
            case Got(response, _) =>
              if !call.Get? then answer == Ack(response.mtype == 8)
              else answer == if response.mtype == 8 then Value(response.value) else Error(GetFailed(response.value))
  {
  }

  /** And what a scan returns. */
  lemma ScansComeFromReplies(l: Link, id: uint32, start: bytes, end: bytes, limit: nat, env: Env)
    ensures var sent := Transmit(l, P.Sent(Request(4, id, start, end)), env);
            var outcome := AskScan(l, id, start, end, limit, env, Whole).1;
            match P.Receive(sent.inbox)
            case Refused(_) => outcome == Thrown(ReceiveError)
            case Starved => outcome == if sent.open then Hangs else Thrown(ReceiveError)
            case Got(response, _) =>
              outcome == if response.mtype == 8 then Returned(ScanText.Parsed(response.value, limit))
                         else Thrown(ScanFailed(response.value))
  {
  }

  /** On an idle link a PUT is acknowledged if and only if it fits, and is logged; then the map holds the pair. */
  lemma PutIsAcknowledgedIff(s: Session, key: bytes, value: bytes, env: Env)
    requires Online(s.link) && SizedCall(Call.Put(key, value)) && s.link.db.initialized
    ensures var (s', answer) := CallStep(s, Call.Put(key, value), env, Whole);
            var db := s.link.db;
            && (answer == Ack(true)
                <==> |key| <= 256 && 13 + |key| + |value| <= 1048576 && db.wal.good && env.op.outcome == Wrote)
            && (answer == Ack(true) ==> s'.link.db.data == db.data[key := value])
            && (answer == Ack(false) ==> s'.link.db.data == db.data - {key})
            && (!answer.Ack? ==> answer == Error(ReceiveError) && s'.link.db == db)
  {
    var request := RequestFor(Call.Put(key, value), NextRequestId(s.requestId));
    if FitsMessage(key, value) {
      PutAnswerIsShort(s.link.db, request, env);
      AskOnline(s.link, request, env);
      PutAnswer(s.link.db, request, env);
    } else {
      RefusedRequestThrows(s.link, request, env);
    }
  }

  lemma DelAnswerIsShort(s: DbState, request: Message, env: Env)
    requires request.mtype == P.DELETE
    ensures Dispatch(s, request, env).1.Deliverable()
  {
  }

  /** A DELETE is acknowledged if and only if it fits, finds its key and is logged; then the key is gone. */
  lemma DelIsAcknowledgedIff(s: Session, key: bytes, env: Env)
    requires Online(s.link) && SizedCall(Call.Del(key)) && s.link.db.initialized
    ensures var (s', answer) := CallStep(s, Call.Del(key), env, Whole);
            var db := s.link.db;
            && (answer == Ack(true) <==> |key| <= 256 && key in db.data && db.wal.good && env.op.outcome == Wrote)
            && (answer == Ack(true) ==> s'.link.db.data == db.data - {key})
            && (answer == Ack(false) ==> s'.link.db.data == db.data)
            && (!answer.Ack? ==> answer == Error(ReceiveError) && s'.link.db == db)
  {
    var request := RequestFor(Call.Del(key), NextRequestId(s.requestId));
    if |key| <= 256 {
      DelAnswerIsShort(s.link.db, request, env);
      AskOnline(s.link, request, env);
      DelAnswer(s.link.db, request, env);
    } else {
      RefusedRequestThrows(s.link, request, env);
    }
  }

  /** A GET returns what the map holds if the key fits and the value is not empty, and throws else. */
  lemma GetReturnsIff(s: Session, key: bytes, env: Env)
    requires Online(s.link) && SizedCall(Call.Get(key)) && s.link.db.initialized && Bounded(s.link.db.data)
    ensures var (s', answer) := CallStep(s, Call.Get(key), env, Whole);
            var db := s.link.db;
            && (answer.Value? <==> |key| <= 256 && key in db.data && db.data[key] != [])
            && (answer.Value? ==> answer == Value(db.data[key]))
            && (!answer.Value? ==>
                  answer == Error(if |key| <= 256 then GetFailed(Ascii("Key not found")) else ReceiveError))
            && s'.link.db.data == db.data && s'.link.db.wal == db.wal
  {
    var request := RequestFor(Call.Get(key), NextRequestId(s.requestId));
    if |key| <= 256 {
      AnswersAreDeliverable(s.link.db, request, env);
      P.ReceivedIsDeliverable(P.Sent(Dispatch(s.link.db, request, env).1));
      AskOnline(s.link, request, env);
      GetAnswer(s.link.db, request, env);
    } else {
      RefusedRequestThrows(s.link, request, env);
    }
  }

  /** What goes out for a call: length, type 1, 2 or 3, and the id. */
  lemma CallOnTheWire(call: Call, id: uint32)
    requires SizedCall(call) && WithinLimits(call)
    ensures var wire := Wire(RequestFor(call, id), Whole);
            && U32At(wire, 0) == |wire| - 4
            && wire[4] == (match call
                           case Get(_) => 1
                           case Put(_, _) => 2
                           case Del(_) => 3)
            && U32At(wire, 5) == id
  {
    var request := RequestFor(call, id);
    var body := P.Encode(request);
    P.MessageLayout(request);
    FrameParts(body, []);
    assert FrameOf(body) + [] == FrameOf(body);
    PartOfPart(FrameOf(body), 4, 4 + |body|, 1, 5);
    assert FrameOf(body)[4] == FrameOf(body)[4..4 + |body|][0];
  }

  lemma EachCallTakesTheNextId(s: Session, calls: seq<Call>, envs: seq<Env>)
    requires |calls| == |envs| && calls != []
    ensures CallAll(s, calls, envs).0.requestId
         == NextRequestId(CallAll(s, calls[..|calls| - 1], envs[..|calls| - 1]).0.requestId)
  {
  }

  /** The id after some calls. */
  function IdAfter(id: uint32, calls: nat): uint32 {
    if calls == 0 then id else NextRequestId(IdAfter(id, calls - 1))
  }

  lemma {:induction false} IdAfterIsSum(id: uint32, calls: nat) returns (wraps: nat)
    ensures id + calls == wraps * 0x1_0000_0000 + IdAfter(id, calls)
  {
    wraps := 0;
    if calls > 0 {
      wraps := IdAfterIsSum(id, calls - 1);
      if IdAfter(id, calls) == 0 {
        wraps := wraps + 1;
      }
    }
  }

  lemma {:induction false} SessionIdIsIdAfter(s: Session, calls: seq<Call>, envs: seq<Env>)
    requires |calls| == |envs|
    ensures CallAll(s, calls, envs).0.requestId == IdAfter(s.requestId, |calls|)
  {
    if calls != [] {
      SessionIdIsIdAfter(s, calls[..|calls| - 1], envs[..|calls| - 1]);
      EachCallTakesTheNextId(s, calls, envs);
    }
  }

  /** Each call takes the next id: their number is added, but for multiples of 2^32. */
  lemma RequestIdsAdvance(s: Session, calls: seq<Call>, envs: seq<Env>) returns (wraps: nat)
    requires |calls| == |envs|
    ensures s.requestId + |calls| == wraps * 0x1_0000_0000 + CallAll(s, calls, envs).0.requestId
  {
    SessionIdIsIdAfter(s, calls, envs);
    wraps := IdAfterIsSum(s.requestId, |calls|);
  }

  /** A received frame has the header of the message that was sent, so its lengths are the sender's. */
  lemma ReceivedHeader(request: Message)
    requires request.LengthsTrue() && P.Receive(P.Sent(request)).Got?
    ensures request.Deliverable()
  {
    var body, wire := P.Encode(request), P.Sent(request);
    var length := ToU32(|body|);
    FrameParts(body, []);
    assert wire + [] == wire;
    P.MessageLayout(request);
    var part := wire[4..4 + length];
    assert part == body[..length];
    assert part[5..9] == body[5..9] && part[9..13] == body[9..13];
  }

  // ---------------------------------------------------------------- scans

  function AskScan(l: Link, id: uint32, start: bytes, end: bytes, limit: nat, env: Env, sending: Sending)
    : (Link, Outcome<Pairs>)
  {
    var (l', outcome) := Ask(l, Request(P.SCAN, id, start, end), env, sending);
    (l', match outcome
         case Hangs => Hangs
         case Thrown(e) => Thrown(e)
         case Returned(response) =>
           if response.mtype == P.SUCCESS then Returned(ScanText.Parsed(response.value, limit))
           else Thrown(ScanFailed(response.value)))
  }

  /** Pairs that came in through messages print to under 4 GiB. */
  lemma {:induction false} EntriesSize(pairs: Pairs, n: nat)
    requires n <= |pairs| && forall i | 0 <= i < |pairs| :: FitsMessage(pairs[i].0, pairs[i].1)
    ensures |ScanText.Entries(pairs, n)| <= n * 1048585
  {
    if n > 0 {
      EntriesSize(pairs, n - 1);
      assert FitsMessage(pairs[n - 1].0, pairs[n - 1].1);
    }
  }

  /** The answer to a scan, before it is sent. */
  function ScanAnswer(s: DbState, id: uint32, start: bytes, end: bytes, env: Env): Message {
    Dispatch(s, Request(P.SCAN, id, start, end), env).1
  }

  /** An answer that does not fit one message; the client refuses it by its length. */
  predicate TooLong(m: Message) {
    m.LengthsTrue() && P.HEADER_SIZE + |m.value| > P.MAX_MESSAGE_SIZE
    && P.HEADER_SIZE + |m.key| + |m.value| < TWO_32
  }

  lemma ScanAnswerSize(s: DbState, id: uint32, start: bytes, end: bytes, env: Env)
    requires s.initialized && Enumerates(env.order, s.data) && Bounded(s.data)
    ensures var response := ScanAnswer(s, id, start, end, env);
            var text := ScanText.Printed(ScanOf(env.order, start, end, SCAN_LIMIT));
            && response.mtype == P.SUCCESS && response.id == id && response.key == [] && response.value == text
            && response.LengthsTrue() && |text| < TWO_32 - P.HEADER_SIZE
  {
    var found := ScanOf(env.order, start, end, SCAN_LIMIT);
    ScanOfIsScan(s.data, env.order, start, end, SCAN_LIMIT);
    EntriesSize(found, |found|);
  }

  /** A reply refused by its length stays on the stream, but for the length. */
  lemma LongReplyIsRefused(response: Message)
    requires TooLong(response)
    ensures P.Receive(P.Sent(response)) == P.Refused(P.Encode(response))
  {
    var body := P.Encode(response);
    FrameParts(body, []);
    assert FrameOf(body) + [] == FrameOf(body);
    assert FrameOf(body)[4..] == body;
  }

  /**
   A scan on an idle link leaves bytes unread if and only if its answer does not fit one message.
   Then the client throws, the connection stays open, and the whole answer but its length is what
   the next call will read first.
   */
  lemma ScanLeavesUnreadIff(l: Link, id: uint32, start: bytes, end: bytes, limit: nat, env: Env)
    requires Online(l) && l.db.initialized && Enumerates(env.order, l.db.data) && Bounded(l.db.data)
    requires FitsMessage(start, end)
    ensures var response := ScanAnswer(l.db, id, start, end, env);
            var (l', outcome) := AskScan(l, id, start, end, limit, env, Whole);
            && (Online(l') <==> !TooLong(response))
            && if TooLong(response) then
                 l'.open && l'.inbox == P.Encode(response) && outcome == Thrown(ReceiveError)
               else
                 outcome == Returned(ScanText.Parsed(response.value, limit))
  {
    var request, response := Request(P.SCAN, id, start, end), ScanAnswer(l.db, id, start, end, env);
    ScanAnswerSize(l.db, id, start, end, env);
    if TooLong(response) {
      DeliverableIsServed(l.db, request, env);
      LongReplyIsRefused(response);
      assert [] + P.Sent(response) == P.Sent(response);
    } else {
      AskOnline(l, request, env);
    }
  }

  /** The largest value a message can bring for the key [1]. */
  const LARGEST: bytes := seq(1048562, i => 0)

  const FULL_DATABASE: DbState := DbState(map[[1] := LARGEST], NewWal(true), 1, true)

  /** One stored pair whose printed form does not fit one message: a scan of it leaves bytes unread. */
  lemma LargestPairIsNotScanned()
    ensures FitsMessage([1], LARGEST)
    ensures var env := Env(LOGGED, LOGGED, [([1], LARGEST)]);
            var (l, outcome) := AskScan(Link(FULL_DATABASE, true, []), 1, [], [2], 1, env, Whole);
            Enumerates(env.order, FULL_DATABASE.data) && outcome == Thrown(ReceiveError) && l.open && l.inbox != []
  {
    var order: Pairs := [([1], LARGEST)];
    var env := Env(LOGGED, LOGGED, order);
    assert Enumerates(order, FULL_DATABASE.data);
    OnePairScanned(([1], LARGEST));
    ScanAnswerSize(FULL_DATABASE, 1, [], [2], env);
    assert TooLong(ScanAnswer(FULL_DATABASE, 1, [], [2], env));
    ScanLeavesUnreadIff(Link(FULL_DATABASE, true, []), 1, [], [2], 1, env);
  }

  lemma OnePairScanned(pair: (bytes, bytes))
    requires InRange(pair.0, [], [2])
    ensures ScanOf([pair], [], [2], SCAN_LIMIT) == [pair]
    ensures |ScanText.Printed([pair])| == 23 + |pair.0| + |pair.1|
  {
    var one := [pair];
    AllMatch(one, [], [2]);
    assert one[..1] == one;
    ScanText.EntryLayout(pair);
    assert ScanText.Entries(one, 1) == ScanText.Entries(one, 0) + ScanText.Entry(pair) + [];
  }

  /** Behind an unread answer that was too long, whatever comes in is refused once more. */
  lemma LeftoverIsRefused(response: Message, reply: bytes)
    requires TooLong(response) && response.key == [] && |reply| >= 4
    ensures P.Receive(P.Encode(response) + reply).Refused?
  {
    var left := P.Encode(response);
    var stream := left + reply;
    P.MessageLayout(response);
    var length := U32At(stream, 0);
    if length <= P.MAX_MESSAGE_SIZE {
      var body := stream[4..4 + length];
      if length >= P.HEADER_SIZE {
        PartOfPart(stream, 4, 4 + length, 5, 9);
        PartOfFront(left, reply, 9, 13);
      }
    }
  }

  /**
   After a scan whose answer was too long, the next request is carried out by the server, and yet
   the client throws: it takes the rest of the old answer for the new one.
   */
  lemma CallAfterLongScanThrows(l: Link, response: Message, request: Message, env: Env)
    requires l.open && l.inbox == P.Encode(response) && TooLong(response) && response.key == []
    requires request.Deliverable()
    ensures var (l', outcome) := Ask(l, request, env, Whole);
            && outcome == Thrown(ReceiveError)
            && l'.db == Dispatch(l.db, request, env).0 && l'.open && l'.inbox != []
  {
    var reply := P.Sent(Dispatch(l.db, request, env).1);
    DeliverableIsServed(l.db, request, env);
    LeftoverIsRefused(response, reply);
    assert |P.Encode(response) + reply| > P.MAX_MESSAGE_SIZE + 4;
  }

  /**
   A client scan returns the first max(limit, 1) of the at most 1000 pairs the server found, if and
   only if the printed pairs fit one message and those it returns hold no double quote.
   */
  lemma ClientScanIff(l: Link, id: uint32, start: bytes, end: bytes, limit: nat, env: Env)
    requires Online(l) && l.db.initialized && Enumerates(env.order, l.db.data) && Bounded(l.db.data)
    requires FitsMessage(start, end)
    ensures var found := ScanOf(env.order, start, end, SCAN_LIMIT);
            var taken := found[..ScanText.Taken(found, limit)];
            && IsScan(l.db.data, start, end, SCAN_LIMIT, found)
            && (AskScan(l, id, start, end, limit, env, Whole).1 == Returned(taken)
                <==> P.HEADER_SIZE + |ScanText.Printed(found)| <= P.MAX_MESSAGE_SIZE && ScanText.AllQuoteFree(taken))
  {
    var found := ScanOf(env.order, start, end, SCAN_LIMIT);
    ScanOfIsScan(l.db.data, env.order, start, end, SCAN_LIMIT);
    ScanAnswerSize(l.db, id, start, end, env);
    ScanLeavesUnreadIff(l, id, start, end, limit, env);
    ScanText.PrintParseRoundTripIff(found, limit);
  }
}
