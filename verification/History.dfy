/**
 Completed operations as a history of events: what a sequential map would answer, and how the
 live map of a history relates to the log it leaves behind.
 */
module History {
  import opened Bytes
  import opened Replay
  import opened RangeScan

  datatype Deletion = Deleted | Missed | DeleteFailed

  /** One completed operation of transaction `id`, at the moment it takes effect. */
  datatype Event =
    | GetEvent(id: uint64, key: bytes, answer: bytes)
    | ScanEvent(id: uint64, start: bytes, end: bytes, limit: nat, result: Pairs)
    | PutEvent(id: uint64, key: bytes, value: bytes, logged: bool)
    | DelEvent(id: uint64, key: bytes, deletion: Deletion)

  /** The sequential map. A PUT whose append fails erases the key; a failed DELETE changes nothing. */
  function After(m: KeyValues, e: Event): KeyValues {
    match e
    case GetEvent(_, _, _) => m
    case ScanEvent(_, _, _, _, _) => m
    case PutEvent(_, key, value, logged) => if logged then m[key := value] else m - {key}
    case DelEvent(_, key, deletion) => if deletion.Deleted? then m - {key} else m
  }

  function LiveAfter(events: seq<Event>): KeyValues {
    if events == [] then map[] else After(LiveAfter(events[..|events| - 1]), events[|events| - 1])
  }

  /** The answer the sequential map gives: an absent key reads as the empty string. */
  ghost predicate Correct(m: KeyValues, e: Event) {
    match e
    case GetEvent(_, key, answer) => answer == if key in m then m[key] else []
    case ScanEvent(_, start, end, limit, result) => IsScan(m, start, end, limit, result)
    case PutEvent(_, _, _, _) => true
    case DelEvent(_, key, deletion) => deletion.Missed? <==> key !in m
  }

  ghost predicate Legal(events: seq<Event>) {
    forall i | 0 <= i < |events| :: Correct(LiveAfter(events[..i]), events[i])
  }

  /** The writes of the history that reached the log. */
  function WriteOfEvent(e: Event): seq<Write> {
    match e
    case PutEvent(id, key, value, true) => [SetKey(id, key, value)]
    case DelEvent(id, key, Deleted) => [EraseKey(id, key)]
    case _ => []
  }

  function Logged(events: seq<Event>): seq<Write> {
    if events == [] then []
    else Logged(events[..|events| - 1]) + WriteOfEvent(events[|events| - 1])
  }

  /** Keys that were present when a PUT of them failed, with no successful PUT since. */
  function Lost(events: seq<Event>): set<bytes> {
    if events == [] then {}
    else
      var before := events[..|events| - 1];
      LostAfter(LiveAfter(before), Lost(before), events[|events| - 1])
  }

  function LostAfter(live: KeyValues, lost: set<bytes>, e: Event): set<bytes> {
    if !e.PutEvent? then lost
    else if e.logged then lost - {e.key}
    else if e.key in live then lost + {e.key}
    else lost
  }

  lemma SnocParts<T>(s: seq<T>, x: T)
    ensures (s + [x])[..|s + [x]| - 1] == s && (s + [x])[|s + [x]| - 1] == x
  {
  }

  lemma LegalSnoc(events: seq<Event>, e: Event)
    requires Legal(events) && Correct(LiveAfter(events), e)
    ensures Legal(events + [e])
  {
    var all := events + [e];
    forall i | 0 <= i < |all|
      ensures Correct(LiveAfter(all[..i]), all[i])
    {
      assert all[..i] == events[..i];
      assert events[..|events|] == events;
    }
  }

  lemma LegalPrefix(events: seq<Event>, n: nat)
    requires Legal(events) && n <= |events|
    ensures Legal(events[..n])
  {
    forall i | 0 <= i < n
      ensures Correct(LiveAfter(events[..n][..i]), events[..n][i])
    {
      assert events[..n][..i] == events[..i];
    }
  }

  /** When event `i` failed to overwrite its key and no PUT of that key succeeded afterwards. */
  ghost predicate LosesKey(events: seq<Event>, key: bytes, i: nat) {
    && i < |events|
    && events[i].PutEvent? && events[i].key == key && !events[i].logged
    && key in LiveAfter(events[..i])
    && forall j | i < j < |events| :: !(events[j].PutEvent? && events[j].key == key && events[j].logged)
  }

  lemma LosesKeySnoc(before: seq<Event>, e: Event, key: bytes, i: nat)
    requires i <= |before|
    ensures LosesKey(before + [e], key, i) <==>
              if i == |before| then e.PutEvent? && e.key == key && !e.logged && key in LiveAfter(before)
              else LosesKey(before, key, i) && !(e.PutEvent? && e.key == key && e.logged)
  {
    var all := before + [e];
    assert all[..i] == before[..i];
    assert before[..|before|] == before;
    assert all[|before|] == e;
    assert forall j | 0 <= j < |before| :: all[j] == before[j];
  }

  lemma {:induction false} LostIff(events: seq<Event>, key: bytes)
    ensures key in Lost(events) <==> exists i :: LosesKey(events, key, i)
  {
    if events != [] {
      var n := |events| - 1;
      var before, e := events[..n], events[n];
      assert before + [e] == events;
      LostIff(before, key);
      forall i: nat | i <= n
        ensures LosesKey(events, key, i) <==>
                  if i == n then e.PutEvent? && e.key == key && !e.logged && key in LiveAfter(before)
                  else LosesKey(before, key, i) && !(e.PutEvent? && e.key == key && e.logged)
      {
        LosesKeySnoc(before, e, key, i);
      }
      if key in Lost(events) {
        if e.PutEvent? && !e.logged && e.key == key && key in LiveAfter(before) {
          assert LosesKey(events, key, n);
        } else {
          var i :| LosesKey(before, key, i);
          assert LosesKey(events, key, i);
        }
      }
    }
  }

  /**
   The live map is the replay of the logged writes without the lost keys, and every lost key is
   in that replay.
   */
  lemma {:induction false} LiveIsReplayWithoutLost(events: seq<Event>)
    requires Legal(events)
    ensures LiveAfter(events) == ApplyWrites(map[], Logged(events)) - Lost(events)
    ensures Lost(events) <= ApplyWrites(map[], Logged(events)).Keys
  {
    if events != [] {
      var n := |events| - 1;
      LegalPrefix(events, n);
      LiveIsReplayWithoutLost(events[..n]);
      assert Correct(LiveAfter(events[..n]), events[n]);
      LiveIsReplaySnoc(events[..n], events[n]);
      assert events[..n] + [events[n]] == events;
    }
  }

  lemma LiveIsReplaySnoc(before: seq<Event>, e: Event)
    requires Correct(LiveAfter(before), e)
    requires LiveAfter(before) == ApplyWrites(map[], Logged(before)) - Lost(before)
    requires Lost(before) <= ApplyWrites(map[], Logged(before)).Keys
    ensures LiveAfter(before + [e]) == ApplyWrites(map[], Logged(before + [e])) - Lost(before + [e])
    ensures Lost(before + [e]) <= ApplyWrites(map[], Logged(before + [e])).Keys
  {
    SnocParts(before, e);
    LoggedSnoc(map[], before, e);
    LiveStep(LiveAfter(before), ApplyWrites(map[], Logged(before)), Lost(before), e);
  }

  /** The replay of the logged writes after one more event. */
  function ReplayAfter(replay: KeyValues, e: Event): KeyValues {
    if WriteOfEvent(e) == [] then replay else ApplyWrite(replay, WriteOfEvent(e)[0])
  }

  lemma LoggedSnoc(base: KeyValues, before: seq<Event>, e: Event)
    ensures ApplyWrites(base, Logged(before + [e])) == ReplayAfter(ApplyWrites(base, Logged(before)), e)
  {
    SnocParts(before, e);
    if WriteOfEvent(e) == [] {
      assert Logged(before + [e]) == Logged(before);
    } else {
      ApplyWritesSnoc(base, Logged(before), WriteOfEvent(e)[0]);
    }
  }

  lemma LiveStep(live: KeyValues, replay: KeyValues, lost: set<bytes>, e: Event)
    requires live == replay - lost && lost <= replay.Keys && Correct(live, e)
    ensures After(live, e) == ReplayAfter(replay, e) - LostAfter(live, lost, e)
    ensures LostAfter(live, lost, e) <= ReplayAfter(replay, e).Keys
  {
  }

  /** The live map is always part of the replay, and all of it exactly when nothing is lost. */
  lemma LiveIsSubmapOfReplay(events: seq<Event>)
    requires Legal(events)
    ensures var replay := ApplyWrites(map[], Logged(events));
            && (forall key | key in LiveAfter(events) :: key in replay && replay[key] == LiveAfter(events)[key])
            && (LiveAfter(events) == replay <==> Lost(events) == {})
  {
    LiveIsReplayWithoutLost(events);
    var replay := ApplyWrites(map[], Logged(events));
    if Lost(events) != {} {
      var key :| key in Lost(events);
      assert key in replay && key !in LiveAfter(events);
    }
  }

  /** If no PUT of a present key failed, nothing is lost. */
  lemma NothingLost(events: seq<Event>)
    requires forall i | 0 <= i < |events| && events[i].PutEvent? && !events[i].logged ::
               events[i].key !in LiveAfter(events[..i])
    ensures Lost(events) == {}
  {
    forall key
      ensures key !in Lost(events)
    {
      LostIff(events, key);
    }
  }

  /** Whatever the logged writes start with is what had been logged at some moment. */
  lemma {:induction false} MomentOfWrites(events: seq<Event>, ws: seq<Write>) returns (i: nat)
    requires ws <= Logged(events)
    ensures i <= |events| && Logged(events[..i]) == ws
  {
    if |Logged(events)| == |ws| {
      i := |events|;
      assert events[..i] == events;
    } else {
      var m := |events| - 1;
      assert ws <= Logged(events[..m]);
      i := MomentOfWrites(events[..m], ws);
      assert events[..m][..i] == events[..i];
    }
  }

  /** Whether the transaction's last PUT, or DELETE that found its key, was logged. */
  function LastAttempt(events: seq<Event>, id: uint64): Option<bool> {
    if events == [] then None
    else
      match events[|events| - 1]
      case PutEvent(id', _, _, logged) =>
        if id' == id then Some(logged) else LastAttempt(events[..|events| - 1], id)
      case DelEvent(id', _, deletion) =>
        if id' == id && !deletion.Missed? then Some(deletion.Deleted?)
        else LastAttempt(events[..|events| - 1], id)
      case _ => LastAttempt(events[..|events| - 1], id)
  }
}
