/**
 Connections as asynchronous callbacks, interleaved step by step across all handlers and the accept
 chain: what each handler has outstanding, how often it reports its end, and the server's
 connection counter.
 */
module Connections {
  import opened Bytes
  import P = Protocol

  const MAX_CONNECTIONS: nat := 50000

  /** How an asynchronous operation ended. */
  datatype Ec = NoError | Aborted | Failed

  /** An operation issued and not yet completed. */
  datatype Pending = HeaderRead | BodyRead | ResponseWrite

  /** Handler code about to run: each looks at `active_` again when its turn comes. */
  datatype Strand = CallReadHeader | CallReadBody | CallWriteResponse(id: uint32) | CallDisconnect

  /**
   One connection handler. `received` and `sent` are the ids of the requests decoded and of the
   responses whose write was issued; `disconnects` counts the calls of its callback.
   */
  datatype Handler = Handler(
    active: bool,
    pending: seq<Pending>,
    strands: seq<Strand>,
    received: seq<uint32>,
    sent: seq<uint32>,
    disconnects: nat)

  const STARTED: Handler := Handler(true, [], [CallReadHeader], [], [], 0)

  datatype HandlerAction =
    | HeaderDone(op: nat, ec: Ec, length: uint32)
    | BodyDone(op: nat, ec: Ec, body: bytes)
    | WriteDone(op: nat, ec: Ec)
    | Resume(strand: nat)
    | Stop

  function Without<T>(s: seq<T>, i: nat): seq<T>
    requires i < |s|
  {
    s[..i] + s[i + 1..]
  }

  predicate CanDo(h: Handler, a: HandlerAction) {
    match a
    case HeaderDone(op, _, _) => op < |h.pending| && h.pending[op] == HeaderRead
    case BodyDone(op, _, _) => op < |h.pending| && h.pending[op] == BodyRead
    case WriteDone(op, _) => op < |h.pending| && h.pending[op] == ResponseWrite
    case Resume(strand) => strand < |h.strands|
    case Stop => true
  }

  /** A callback that cannot go on reports the end, unless the operation was aborted. */
  function GiveUp(h: Handler, ec: Ec): Handler {
    if ec == Aborted then h else h.(strands := h.strands + [CallDisconnect])
  }

  function Completed(h: Handler, op: nat): Handler
    requires op < |h.pending|
  {
    h.(pending := Without(h.pending, op))
  }

  function DoHandler(h: Handler, a: HandlerAction): Handler
    requires CanDo(h, a)
  {
    match a
    case HeaderDone(op, ec, length) =>
      var h' := Completed(h, op);
      if ec != NoError || !h.active then GiveUp(h', ec)
      else if length > P.MAX_MESSAGE_SIZE then h'.(strands := h'.strands + [CallDisconnect])
      else h'.(strands := h'.strands + [CallReadBody])
    case BodyDone(op, ec, body) =>
      var h' := Completed(h, op);
      if ec != NoError || !h.active then GiveUp(h', ec)
      else
        (match P.Decode(body)
         case Rejected(_) => h'.(strands := h'.strands + [CallDisconnect])
         case Parsed(request) =>
           h'.(strands := h'.strands + [CallWriteResponse(request.id)], received := h'.received + [request.id]))
    case WriteDone(op, ec) =>
      var h' := Completed(h, op);
      if ec != NoError || !h.active then GiveUp(h', ec)
      else h'.(strands := h'.strands + [CallReadHeader])
    case Resume(strand) =>
      var h' := h.(strands := Without(h.strands, strand));
      (match h.strands[strand]
       case CallReadHeader => if h.active then h'.(pending := h'.pending + [HeaderRead]) else h'
       case CallReadBody => if h.active then h'.(pending := h'.pending + [BodyRead]) else h'
       case CallWriteResponse(id) =>
         if h.active then h'.(pending := h'.pending + [ResponseWrite], sent := h'.sent + [id]) else h'
       case CallDisconnect => h'.(disconnects := h'.disconnects + 1))
    case Stop => h.(active := false)
  }

  /** The one strand of a callback run to its end with nothing in between. */
  function Settled(h: Handler): Handler {
    if h.strands == [] then h else DoHandler(h, Resume(0))
  }

  /** A whole callback with nothing in between. */
  function Uninterrupted(h: Handler, a: HandlerAction): Handler
    requires CanDo(h, a)
  {
    Settled(DoHandler(h, a))
  }

  /** What a body callback comes to when nothing gets in between. */
  lemma BodyCallback(h: Handler, ec: Ec, body: bytes)
    requires h.pending == [BodyRead] && h.strands == []
    ensures var after := Uninterrupted(h, BodyDone(0, ec, body));
            if ec != NoError || !h.active then
              after == h.(pending := [], disconnects := h.disconnects + if ec == Aborted then 0 else 1)
            else
              match P.Decode(body)
              case Rejected(_) => after == h.(pending := [], disconnects := h.disconnects + 1)
              case Parsed(request) =>
                after == h.(pending := [ResponseWrite], received := h.received + [request.id], sent := h.sent + [request.id])
  {
    WithoutOnly(h.pending, 0);
  }

  /** What a header callback comes to when nothing gets in between. */
  lemma HeaderCallback(h: Handler, ec: Ec, length: uint32)
    requires h.pending == [HeaderRead] && h.strands == []
    ensures Uninterrupted(h, HeaderDone(0, ec, length))
         == if ec == NoError && h.active && length <= 1048576 then h.(pending := [BodyRead])
            else if (ec == NoError && h.active) || ec != Aborted then h.(pending := [], disconnects := h.disconnects + 1)
            else h.(pending := [])
  {
    WithoutOnly(h.pending, 0);
  }

  /** What a write callback comes to when nothing gets in between. */
  lemma WriteCallback(h: Handler, ec: Ec)
    requires h.pending == [ResponseWrite] && h.strands == []
    ensures Uninterrupted(h, WriteDone(0, ec))
         == if ec == NoError && h.active then h.(pending := [HeaderRead])
            else if ec != Aborted then h.(pending := [], disconnects := h.disconnects + 1)
            else h.(pending := [])
  {
    WithoutOnly(h.pending, 0);
  }

  /** The answer that is due: none, or the one about to be written; a dropped one ends the handler. */
  ghost predicate AnswersInOrder(h: Handler) {
    if h.strands != [] && h.strands[0].CallWriteResponse? then h.received == h.sent + [h.strands[0].id]
    else if h.strands != [] || h.pending != [] then h.received == h.sent
    else h.sent <= h.received && |h.received| <= |h.sent| + 1
  }

  /** One thing at a time; one report at most, and nothing after it; answers in request order. */
  ghost predicate Orderly(h: Handler) {
    |h.pending| + |h.strands| + h.disconnects <= 1 && AnswersInOrder(h)
  }

  lemma WithoutOnly<T>(s: seq<T>, i: nat)
    requires |s| == 1 && i == 0
    ensures Without(s, i) == []
  {
  }

  lemma OrderlyKept(h: Handler, a: HandlerAction)
    requires Orderly(h) && CanDo(h, a)
    ensures Orderly(DoHandler(h, a))
  {
    if a.HeaderDone? || a.BodyDone? || a.WriteDone? {
      WithoutOnly(h.pending, a.op);
    } else if a.Resume? {
      WithoutOnly(h.strands, a.strand);
    }
  }

  ghost function RunHandler(actions: seq<HandlerAction>): Option<Handler> {
    if actions == [] then Some(STARTED)
    else
      var n := |actions| - 1;
      var before := RunHandler(actions[..n]);
      if before.Some? && CanDo(before.value, actions[n]) then Some(DoHandler(before.value, actions[n])) else None
  }

  lemma {:induction false} RunIsOrderly(actions: seq<HandlerAction>)
    requires RunHandler(actions).Some?
    ensures Orderly(RunHandler(actions).value)
  {
    if actions != [] {
      var n := |actions| - 1;
      RunIsOrderly(actions[..n]);
      OrderlyKept(RunHandler(actions[..n]).value, actions[n]);
    }
  }

  /**
   In every run a handler has at most one read or write outstanding, calls its disconnect callback
   at most once and has nothing outstanding or about to run afterwards, and the ids it answered
   are in order those it received, but for at most the last.
   */
  lemma ConnectionProtocol(actions: seq<HandlerAction>)
    requires RunHandler(actions).Some?
    ensures var h := RunHandler(actions).value;
            && |h.pending| <= 1
            && h.disconnects <= 1
            && (h.disconnects == 1 ==> h.pending == [] && h.strands == [])
            && h.sent <= h.received && |h.received| <= |h.sent| + 1
  {
    RunIsOrderly(actions);
  }

  lemma OnlyStopStops(h: Handler, a: HandlerAction)
    requires CanDo(h, a)
    ensures DoHandler(h, a).active <==> h.active && a != Stop
  {
  }

  /** A handler is stopped for good by its first `stop`, and by nothing else. */
  lemma {:induction false} StopIsForGood(actions: seq<HandlerAction>)
    requires RunHandler(actions).Some?
    ensures RunHandler(actions).value.active <==> Stop !in actions
  {
    if actions != [] {
      var n := |actions| - 1;
      StopIsForGood(actions[..n]);
      OnlyStopStops(RunHandler(actions[..n]).value, actions[n]);
      assert actions == actions[..n] + [actions[n]];
    }
  }

  /** Once stopped, a handler issues no read and no write. */
  lemma StoppedIssuesNothing(h: Handler, a: HandlerAction)
    requires !h.active && CanDo(h, a)
    ensures |DoHandler(h, a).pending| <= |h.pending| && DoHandler(h, a).sent == h.sent
  {
  }

  /** A started handler waits for a header. */
  lemma StartedReadsAHeader()
    ensures Settled(STARTED) == Handler(true, [HeaderRead], [], [], [], 0)
  {
    WithoutOnly(STARTED.strands, 0);
  }

  // ---------------------------------------------------------------- the server

  /** Where the accept chain stands; the counter is read and raised in separate steps. */
  datatype Accepting = Waiting | Checking | Admitted | Spawning | Rearming | Closed

  datatype Server = Server(handlers: seq<Handler>, count: uint32, accepting: Accepting, running: bool)

  const LISTENING: Server := Server([], 0, Waiting, true)

  datatype ServerAction =
    | AcceptFires(failed: bool)
    | CheckCount
    | Increment
    | Spawn
    | Rearm
    | StopServer
    | HandlerStep(index: nat, action: HandlerAction)

  predicate CanServe(s: Server, a: ServerAction) {
    match a
    case AcceptFires(_) => s.accepting == Waiting
    case CheckCount => s.accepting == Checking
    case Increment => s.accepting == Admitted
    case Spawn => s.accepting == Spawning
    case Rearm => s.accepting == Rearming
    case StopServer => true
    case HandlerStep(i, action) => i < |s.handlers| && CanDo(s.handlers[i], action)
  }

  /** The step in which a handler's callback reaches `on_client_disconnect`. */
  predicate Reports(h: Handler, a: HandlerAction)
    requires CanDo(h, a)
  {
    a.Resume? && h.strands[a.strand] == CallDisconnect
  }

  /** The counter is an unsigned 32-bit integer: one below zero wraps around. */
  function Decremented(count: uint32): uint32 {
    if count == 0 then TWO_32 - 1 else count - 1
  }

  function DoServe(s: Server, a: ServerAction): Server
    requires CanServe(s, a)
  {
    match a
    case AcceptFires(failed) => s.(accepting := if !failed && s.running then Checking else Rearming)
    case CheckCount => s.(accepting := if s.count >= MAX_CONNECTIONS then Rearming else Admitted)
    case Increment => s.(count := ToU32(s.count + 1), accepting := Spawning)
    case Spawn => s.(handlers := s.handlers + [STARTED], accepting := Rearming)
    case Rearm => s.(accepting := if s.running then Waiting else Closed)
    case StopServer => s.(running := false)
    case HandlerStep(i, action) =>
      var h := s.handlers[i];
      s.(handlers := s.handlers[i := DoHandler(h, action)],
         count := if Reports(h, action) then Decremented(s.count) else s.count)
  }

  function RunServer(actions: seq<ServerAction>): Option<Server> {
    if actions == [] then Some(LISTENING)
    else
      var n := |actions| - 1;
      var before := RunServer(actions[..n]);
      if before.Some? && CanServe(before.value, actions[n]) then Some(DoServe(before.value, actions[n])) else None
  }

  /** Disconnect callbacks over all handlers. */
  function Callbacks(handlers: seq<Handler>): nat {
    if handlers == [] then 0
    else Callbacks(handlers[..|handlers| - 1]) + handlers[|handlers| - 1].disconnects
  }

  /** Connections admitted: one handler each, and one more between the increment and its handler. */
  function AcceptedCount(s: Server): nat {
    |s.handlers| + if s.accepting == Spawning then 1 else 0
  }

  lemma {:induction false} CallbacksAfterUpdate(handlers: seq<Handler>, i: nat, h: Handler)
    requires i < |handlers|
    ensures Callbacks(handlers[i := h]) == Callbacks(handlers) - handlers[i].disconnects + h.disconnects
  {
    var n := |handlers| - 1;
    var updated := handlers[i := h];
    if i < n {
      CallbacksAfterUpdate(handlers[..n], i, h);
      assert updated[..n] == handlers[..n][i := h];
    } else {
      assert updated[..n] == handlers[..n];
    }
  }

  lemma {:induction false} CallbacksBound(handlers: seq<Handler>, i: nat)
    requires i < |handlers| && forall h | h in handlers :: h.disconnects <= 1
    ensures Callbacks(handlers) <= |handlers| - 1 + handlers[i].disconnects
  {
    var n := |handlers| - 1;
    assert handlers[n] in handlers;
    if n > 0 {
      CallbacksBound(handlers[..n], if i < n then i else 0);
    }
  }

  ghost predicate Counted(s: Server) {
    && (forall i | 0 <= i < |s.handlers| :: Orderly(s.handlers[i]))
    && s.count == AcceptedCount(s) - Callbacks(s.handlers)
    && s.count <= MAX_CONNECTIONS
    && (s.accepting == Admitted ==> s.count < MAX_CONNECTIONS)
  }

  lemma HandlerStepKeepsCounted(s: Server, i: nat, action: HandlerAction)
    requires Counted(s) && CanServe(s, HandlerStep(i, action))
    ensures Counted(DoServe(s, HandlerStep(i, action)))
    ensures Reports(s.handlers[i], action) ==> s.count >= 1
  {
    OrderlyKept(s.handlers[i], action);
    CallbacksAfterUpdate(s.handlers, i, DoHandler(s.handlers[i], action));
    CallbacksBound(s.handlers, i);
    ReportCounts(s.handlers[i], action);
  }

  /** A callback is counted in the step that makes it, and in no other. */
  lemma ReportCounts(h: Handler, a: HandlerAction)
    requires Orderly(h) && CanDo(h, a)
    ensures DoHandler(h, a).disconnects == h.disconnects + if Reports(h, a) then 1 else 0
    ensures Reports(h, a) ==> h.disconnects == 0
  {
  }

  lemma CountedKept(s: Server, a: ServerAction)
    requires Counted(s) && CanServe(s, a)
    ensures Counted(DoServe(s, a))
  {
    match a
    case HandlerStep(i, action) => HandlerStepKeepsCounted(s, i, action);
    case Spawn =>
      assert (s.handlers + [STARTED])[..|s.handlers|] == s.handlers;
    case _ =>
  }

  lemma {:induction false} RunIsCounted(actions: seq<ServerAction>)
    requires RunServer(actions).Some?
    ensures Counted(RunServer(actions).value)
  {
    if actions != [] {
      var n := |actions| - 1;
      RunIsCounted(actions[..n]);
      CountedKept(RunServer(actions[..n]).value, actions[n]);
    }
  }

  lemma DecrementWraps(count: uint32)
    ensures Decremented(count) as int == (count as int - 1) % 0x1_0000_0000
  {
  }

  /**
   Whatever else goes on, running or not: an outstanding operation may complete in any way, code
   about to run may run, and each handler and the server may be stopped.
   */
  lemma NothingIsHeldUp(s: Server, i: nat, k: nat, ec: Ec, length: uint32, body: bytes)
    requires i < |s.handlers|
    ensures var h := s.handlers[i];
            && CanServe(s, StopServer)
            && CanServe(s, HandlerStep(i, HandlerAction.Stop))
            && (k < |h.strands| ==> CanServe(s, HandlerStep(i, Resume(k))))
            && (k < |h.pending| ==>
                  match h.pending[k]
                  case HeaderRead => CanServe(s, HandlerStep(i, HeaderDone(k, ec, length)))
                  case BodyRead => CanServe(s, HandlerStep(i, BodyDone(k, ec, body)))
                  case ResponseWrite => CanServe(s, HandlerStep(i, WriteDone(k, ec))))
  {
  }

  /** Handlers that have not reported their end: open connections, and those that ended silently. */
  ghost function Unreported(handlers: seq<Handler>): set<nat> {
    set i: nat | i < |handlers| && handlers[i].disconnects == 0
  }

  lemma UnreportedSnoc(handlers: seq<Handler>, h: Handler)
    ensures Unreported(handlers + [h])
         == Unreported(handlers) + (if h.disconnects == 0 then {|handlers|} else {})
    ensures |handlers| !in Unreported(handlers)
  {
    var all := handlers + [h];
    assert all[|handlers|] == h;
    assert forall i | 0 <= i < |handlers| :: all[i] == handlers[i];
  }

  lemma {:induction false} UnreportedCount(handlers: seq<Handler>)
    requires forall h | h in handlers :: h.disconnects <= 1
    ensures |Unreported(handlers)| + Callbacks(handlers) == |handlers|
  {
    if handlers == [] {
      assert Unreported(handlers) == {};
    } else {
      var n := |handlers| - 1;
      assert handlers[..n] + [handlers[n]] == handlers;
      UnreportedCount(handlers[..n]);
      UnreportedSnoc(handlers[..n], handlers[n]);
      assert handlers[n] in handlers;
    }
  }

  /**
   In every interleaving of the accept chain with any number of handlers the counter is the number
   of admitted connections minus the number of disconnect callbacks, so it is exactly the
   handlers that have not reported plus one being set up; it never wraps below zero and never
   exceeds the maximum.
   */
  lemma ConnectionCounter(actions: seq<ServerAction>, a: ServerAction)
    requires RunServer(actions).Some?
    ensures var s := RunServer(actions).value;
            && s.count == AcceptedCount(s) - Callbacks(s.handlers)
            && s.count == |Unreported(s.handlers)| + (if s.accepting == Spawning then 1 else 0)
            && s.count <= MAX_CONNECTIONS
            && (CanServe(s, a) && a.HandlerStep? && Reports(s.handlers[a.index], a.action) ==>
                  DoServe(s, a).count == s.count - 1)
  {
    var s := RunServer(actions).value;
    RunIsCounted(actions);
    UnreportedCount(s.handlers);
    if CanServe(s, a) && a.HandlerStep? {
      HandlerStepKeepsCounted(s, a.index, a.action);
    }
  }

  /** Nothing outstanding, nothing about to run, and no report was made. */
  predicate EndedSilently(h: Handler) {
    h.pending == [] && h.strands == [] && h.disconnects == 0
  }

  /**
   The steps that end a handler without a report: an aborted operation, or a `stop` that comes
   between a callback's own check and the next call's.
   */
  predicate Silences(h: Handler, a: HandlerAction)
    requires CanDo(h, a)
  {
    if a.Resume? then !h.active && !h.strands[a.strand].CallDisconnect? else !a.Stop? && a.ec == Aborted
  }

  /** This step of the run silenced the handler. */
  ghost predicate SilencedAt(actions: seq<HandlerAction>, i: nat) {
    && i < |actions|
    && RunHandler(actions[..i]).Some?
    && CanDo(RunHandler(actions[..i]).value, actions[i])
    && Silences(RunHandler(actions[..i]).value, actions[i])
  }

  lemma SilentStepIff(h: Handler, a: HandlerAction)
    requires Orderly(h) && CanDo(h, a)
    ensures EndedSilently(DoHandler(h, a)) <==> EndedSilently(h) || Silences(h, a)
  {
  }

  lemma SilencedEarlier(actions: seq<HandlerAction>)
    requires actions != []
    ensures (exists i :: SilencedAt(actions, i))
            <==> (var before := actions[..|actions| - 1];
                  (exists i :: SilencedAt(before, i)) || SilencedAt(actions, |actions| - 1))
  {
    var n := |actions| - 1;
    forall i: nat
      ensures i < n ==> (SilencedAt(actions, i) <==> SilencedAt(actions[..n], i))
    {
      if i < n {
        assert actions[..n][..i] == actions[..i];
      }
    }
    if i :| SilencedAt(actions[..n], i) {
      assert SilencedAt(actions, i);
    }
  }

  /** A handler has ended without a report exactly when some step of its run silenced it. */
  lemma {:induction false} EndsSilentlyIff(actions: seq<HandlerAction>)
    requires RunHandler(actions).Some?
    ensures EndedSilently(RunHandler(actions).value) <==> exists i :: SilencedAt(actions, i)
  {
    if actions != [] {
      var n := |actions| - 1;
      RunIsOrderly(actions[..n]);
      EndsSilentlyIff(actions[..n]);
      SilentStepIff(RunHandler(actions[..n]).value, actions[n]);
      SilencedEarlier(actions);
    }
  }

  /** One connection admitted, and its first read aborted. */
  const ABORTED_RUN: seq<ServerAction> := [
    AcceptFires(false), CheckCount, Increment, Spawn,
    HandlerStep(0, Resume(0)), HandlerStep(0, HeaderDone(0, Aborted, 0))]

  /** A silent handler is within reach, and it holds its place. */
  lemma AbortedRunLeaksAPlace()
    ensures RunServer(ABORTED_RUN).Some?
    ensures var s := RunServer(ABORTED_RUN).value;
            s.count == 1 && |s.handlers| == 1 && EndedSilently(s.handlers[0])
  {
    var run := ABORTED_RUN;
    assert RunServer(run[..0]) == Some(LISTENING);
    OneMoreStep(run, 0);
    OneMoreStep(run, 1);
    OneMoreStep(run, 2);
    OneMoreStep(run, 3);
    OneMoreStep(run, 4);
    OneMoreStep(run, 5);
    assert run[..6] == run;
  }

  lemma OneMoreStep(actions: seq<ServerAction>, n: nat)
    requires n < |actions| && RunServer(actions[..n]).Some?
    requires CanServe(RunServer(actions[..n]).value, actions[n])
    ensures RunServer(actions[..n + 1]) == Some(DoServe(RunServer(actions[..n]).value, actions[n]))
  {
    assert actions[..n + 1][..n] == actions[..n];
  }

  /** The handlers that ended without a report. */
  ghost function Silent(handlers: seq<Handler>): set<nat> {
    set i: nat | i < |handlers| && EndedSilently(handlers[i])
  }

  /**
   Places lost to handlers that ended silently are lost for good: no step gives one back, each is
   counted, and once they reach the maximum no connection is admitted any more.
   */
  lemma LostPlacesStayCounted(actions: seq<ServerAction>, a: ServerAction)
    requires RunServer(actions).Some?
    ensures var s := RunServer(actions).value;
            && |Silent(s.handlers)| <= s.count
            && (CanServe(s, a) ==> Silent(s.handlers) <= Silent(DoServe(s, a).handlers))
            && (|Silent(s.handlers)| == MAX_CONNECTIONS ==> s.accepting != Admitted && s.accepting != Spawning)
  {
    var s := RunServer(actions).value;
    RunIsCounted(actions);
    UnreportedCount(s.handlers);
    var silent, unreported := Silent(s.handlers), Unreported(s.handlers);
    assert silent <= unreported;
    assert |unreported - silent| == |unreported| - |silent|;
    if CanServe(s, a) && a.HandlerStep? {
      SilentStepIff(s.handlers[a.index], a.action);
    }
  }

  // ---------------------------------------------------------------- the server object

  /** A whole `handle_accept` with nothing in between. */
  function AcceptUninterrupted(s: Server, failed: bool): Server
    requires s.accepting == Waiting
  {
    var s1 := DoServe(s, AcceptFires(failed));
    var s2 := if s1.accepting == Checking then DoServe(s1, CheckCount) else s1;
    var s3 := if s2.accepting == Admitted then DoServe(DoServe(s2, Increment), Spawn) else s2;
    DoServe(s3, Rearm)
  }

  /**
   With nothing in between, an accepted connection is admitted if and only if the server runs and
   fewer than 50000 are counted, and the next one is waited for if and only if the server runs.
   */
  lemma AcceptOutcome(s: Server, failed: bool)
    requires s.accepting == Waiting
    ensures var t := AcceptUninterrupted(s, failed);
            && t.running == s.running && t.accepting == (if s.running then Waiting else Closed)
            && if !failed && s.running && s.count < 50000 then
                 t.count == s.count + 1 && t.handlers == s.handlers + [STARTED]
               else
                 t.count == s.count && t.handlers == s.handlers
  {
  }

  /** In every interleaving: what the check lets through is counted and started, and all else is turned away. */
  lemma CheckAdmitsIff(actions: seq<ServerAction>)
    requires RunServer(actions).Some? && RunServer(actions).value.accepting == Checking
    ensures var s := RunServer(actions).value;
            var checked := DoServe(s, CheckCount);
            && checked.count == s.count && checked.handlers == s.handlers
            && checked.accepting == (if s.count < 50000 then Admitted else Rearming)
            && (s.count < 50000 ==>
                  var started := DoServe(DoServe(checked, Increment), Spawn);
                  && started.count == s.count + 1 && started.handlers == s.handlers + [STARTED]
                  && started.accepting == Rearming)
  {
  }

  /** The server runs until it is stopped, and while it runs the accept chain does not break off. */
  lemma {:induction false} AcceptChainGoesOn(actions: seq<ServerAction>)
    requires RunServer(actions).Some?
    ensures var s := RunServer(actions).value;
            && (s.running <==> StopServer !in actions)
            && (s.running ==> s.accepting != Closed)
  {
    if actions != [] {
      var n := |actions| - 1;
      AcceptChainGoesOn(actions[..n]);
      assert actions == actions[..n] + [actions[n]];
    }
  }

  class DatabaseServer {
    var running: bool
    var connectionCount: uint32
    ghost var handlers: seq<Handler>
    ghost var accepting: Accepting

    ghost function State(): Server
      reads this
    {
      Server(handlers, connectionCount, accepting, running)
    }

    constructor ()
      ensures State() == LISTENING.(running := false, accepting := Closed)
    {
      running, connectionCount, handlers, accepting := false, 0, [], Closed;
    }

    method Start()
      modifies this
      ensures State() == old(State()).(running := true, accepting := Waiting)
    {
      running := true;
      StartAccept();
    }

    method StopServing()
      modifies this
      ensures State() == DoServe(old(State()), StopServer)
    {
      running := false;
    }

    method StartAccept()
      modifies this
      ensures State() == old(State()).(accepting := Waiting)
    {
      accepting := Waiting;
    }

    method HandleAccept(failed: bool)
      requires accepting == Waiting
      modifies this
      ensures State() == AcceptUninterrupted(old(State()), failed)
    {
      if !failed && running {
        if connectionCount < MAX_CONNECTIONS {
          connectionCount := ToU32(connectionCount + 1);
          handlers := handlers + [STARTED];
        }
      }
      accepting := Closed;
      if running {
        StartAccept();
      }
    }

    /** The callback of handler `index`, which is about to run it. */
    method OnClientDisconnect(ghost index: nat, ghost strand: nat)
      requires CanServe(State(), HandlerStep(index, Resume(strand)))
      requires Reports(handlers[index], Resume(strand))
      modifies this
      ensures State() == DoServe(old(State()), HandlerStep(index, Resume(strand)))
    {
      connectionCount := if connectionCount == 0 then TWO_32 - 1 else connectionCount - 1;
      handlers := handlers[index := DoHandler(handlers[index], Resume(strand))];
    }
  }
}
