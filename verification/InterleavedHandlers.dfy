/**
 Handlers on any number of threads. Each serves a request by a transaction of its own: it begins
 one, makes one call and commits. Its answer is made from what the call returned.
 */
module InterleavedHandlers {
  import opened Bytes
  import opened LogFile
  import opened Replay
  import opened RangeScan
  import opened History
  import opened Database
  import opened Server
  import ScanText
  import P = Protocol
  import T = Transactions

  /** The answer a handler makes of what its transaction's call returned. */
  function Reply(request: Message, e: Event): Message {
    match e
    case GetEvent(_, _, answer) =>
      if answer != [] then Response(request.id, P.SUCCESS, answer) else Failure(request.id, "Key not found")
    case PutEvent(_, _, _, logged) =>
      if logged then Response(request.id, P.SUCCESS, Ascii("OK")) else Failure(request.id, "Failed to put value")
    case DelEvent(_, _, deletion) =>
      if deletion.Deleted? then Response(request.id, P.SUCCESS, Ascii("OK"))
      else Failure(request.id, "Failed to delete key")
    case ScanEvent(_, _, _, _, result) => Response(request.id, P.SUCCESS, ScanText.Printed(result))
  }

  /** The call with this event is the one the request asks for. */
  predicate AsksFor(request: Message, e: Event) {
    match e
    case GetEvent(_, key, _) => request.mtype == P.GET && request.key == key
    case PutEvent(_, key, value, _) => request.mtype == P.PUT && request.key == key && request.value == value
    case DelEvent(_, key, _) => request.mtype == P.DELETE && request.key == key
    case ScanEvent(_, start, end, limit, _) =>
      request.mtype == P.SCAN && request.key == start && request.value == end && limit == SCAN_LIMIT
  }

  /** Requests dispatched one after another. */
  function DispatchAll(s: DbState, requests: seq<Message>, envs: seq<Env>): (r: (DbState, seq<Message>))
    requires |requests| == |envs|
    ensures |r.1| == |requests|
  {
    if requests == [] then (s, [])
    else
      var n := |requests| - 1;
      var (before, replies) := DispatchAll(s, requests[..n], envs[..n]);
      var (after, reply) := Dispatch(before, requests[n], envs[n]);
      (after, replies + [reply])
  }

  /** In use, with a log that takes records, and this map. */
  predicate Serving(s: DbState, m: KeyValues) {
    s.initialized && s.wal.good && s.data == m
  }

  /** The append succeeds or not; the commit always does. */
  function Fate(logged: bool, order: Pairs): Env {
    Env(Io(1, if logged then Wrote else Threw), Io(1, Wrote), order)
  }

  /** The dispatcher alone, with the same fate, answers this request as the interleaved call was answered. */
  ghost predicate AnswersAlike(s: DbState, request: Message, e: Event, env: Env) {
    var (after, response) := Dispatch(s, request, env);
    FairOrder(s, request, env) && response == Reply(request, e) && Serving(after, After(s.data, e))
  }

  lemma PutAnswersAlike(s: DbState, request: Message, e: Event)
    requires Serving(s, s.data) && AsksFor(request, e) && e.PutEvent?
    ensures AnswersAlike(s, request, e, Fate(e.logged, []))
  {
  }

  lemma DelAnswersAlike(s: DbState, request: Message, e: Event)
    requires Serving(s, s.data) && AsksFor(request, e) && e.DelEvent? && Correct(s.data, e)
    ensures AnswersAlike(s, request, e, Fate(e.deletion.Deleted?, []))
  {
  }

  lemma AnswerAlike(s: DbState, request: Message, e: Event) returns (env: Env)
    requires Serving(s, s.data) && AsksFor(request, e) && Correct(s.data, e)
    ensures AnswersAlike(s, request, e, env)
  {
    match e
    case GetEvent(_, _, _) =>
      env := Fate(true, []);
    case PutEvent(_, _, _, logged) =>
      env := Fate(logged, []);
      PutAnswersAlike(s, request, e);
    case DelEvent(_, _, deletion) =>
      env := Fate(deletion.Deleted?, []);
      DelAnswersAlike(s, request, e);
    case ScanEvent(_, start, end, limit, result) =>
      var order := EveryScanHasAnOrder(s.data, start, end, limit, result);
      env := Fate(true, order);
  }

  lemma DispatchOneMore(s: DbState, requests: seq<Message>, envs: seq<Env>, request: Message, env: Env)
    requires |requests| == |envs|
    ensures var (before, replies) := DispatchAll(s, requests, envs);
            var (after, reply) := Dispatch(before, request, env);
            DispatchAll(s, requests + [request], envs + [env]) == (after, replies + [reply])
  {
    assert (requests + [request])[..|requests|] == requests;
    assert (envs + [env])[..|envs|] == envs;
  }

  /** Dispatched one after another, the requests are answered as the events' calls were. */
  ghost predicate AllAlike(events: seq<Event>, requests: seq<Message>, envs: seq<Env>)
    requires |events| == |requests| == |envs|
  {
    var (after, replies) := DispatchAll(NEW_DATABASE, requests, envs);
    && Serving(after, LiveAfter(events))
    && forall k | 0 <= k < |events| :: replies[k] == Reply(requests[k], events[k])
  }

  lemma OneMoreAlike(events: seq<Event>, requests: seq<Message>, envs: seq<Env>, e: Event, request: Message, env: Env)
    requires |events| == |requests| == |envs| && AllAlike(events, requests, envs)
    requires AnswersAlike(DispatchAll(NEW_DATABASE, requests, envs).0, request, e, env)
    ensures AllAlike(events + [e], requests + [request], envs + [env])
  {
    DispatchOneMore(NEW_DATABASE, requests, envs, request, env);
    SnocParts(events, e);
  }

  /** The dispatcher alone, over a whole history of events. */
  lemma {:induction false} AnswersAlong(events: seq<Event>, requests: seq<Message>) returns (envs: seq<Env>)
    requires Legal(events) && |requests| == |events|
    requires forall k | 0 <= k < |events| :: AsksFor(requests[k], events[k])
    ensures |envs| == |requests| && AllAlike(events, requests, envs)
  {
    if events == [] {
      envs := [];
    } else {
      var n := |events| - 1;
      LegalPrefix(events, n);
      var before := AnswersAlong(events[..n], requests[..n]);
      assert Correct(LiveAfter(events[..n]), events[n]);
      var env := AnswerAlike(DispatchAll(NEW_DATABASE, requests[..n], before).0, requests[n], events[n]);
      OneMoreAlike(events[..n], requests[..n], before, events[n], requests[n], env);
      envs := before + [env];
      assert events[..n] + [events[n]] == events && requests[..n] + [requests[n]] == requests;
    }
  }

  /**
   Run any schedule of handlers, and name for each call the request it was made for. One dispatcher,
   given those requests one after another in the order in which the calls took effect, and with the
   same appends failing, gives every handler's answer and ends with the same map.
   */
  lemma InterleavedAnswersAreSequential(actions: seq<T.Action>, s: T.State, requests: seq<Message>)
    returns (envs: seq<Env>)
    requires T.Reached(actions, s) && |requests| == |s.events|
    requires forall k | 0 <= k < |s.events| :: AsksFor(requests[k], s.events[k])
    ensures |envs| == |requests|
    ensures var (after, replies) := DispatchAll(NEW_DATABASE, requests, envs);
            && after.data == LiveAfter(s.events)
            && (s.writer == None ==> after.data == s.data)
            && forall i | 0 <= i < |s.done| ::
                 s.done[i].at < |requests| && replies[s.done[i].at] == Reply(requests[s.done[i].at], s.done[i].event)
  {
    T.Linearizable(actions, s);
    T.ReachedInv(actions, s);
    envs := AnswersAlong(s.events, requests);
  }
}
