/**
 Recovery folds the log's records over a key/value map. What that fold depends on.
 */
module Replay {
  import opened Bytes
  import opened WalRecord

  type KeyValues = map<bytes, bytes>

  function Lookup(m: KeyValues, key: bytes): Option<bytes> {
    if key in m then Some(m[key]) else None
  }

  /** One record: PUT sets, DELETE erases, any other type byte does nothing. */
  function Apply(m: KeyValues, r: WALRecord): KeyValues {
    if r.rtype == PUT then m[r.key := r.value]
    else if r.rtype == DELETE then m - {r.key}
    else m
  }

  function ReplayOn(m: KeyValues, rs: seq<WALRecord>): KeyValues {
    if rs == [] then m else Apply(ReplayOn(m, rs[..|rs| - 1]), rs[|rs| - 1])
  }

  /** The loop of `recover_from_wal`, over the map the database already holds. */
  method ReplayRecords(data: KeyValues, records: seq<WALRecord>) returns (result: KeyValues)
    ensures result == ReplayOn(data, records)
  {
    result := data;
    for i := 0 to |records|
      invariant result == ReplayOn(data, records[..i])
    {
      var record := records[i];
      assert records[..i + 1][..i] == records[..i];
      if record.rtype == PUT {
        result := result[record.key := record.value];
      } else if record.rtype == DELETE {
        result := result - {record.key};
      }
    }
    assert records[..|records|] == records;
  }

  lemma SameLookupsSameMap(a: KeyValues, b: KeyValues)
    requires forall key :: Lookup(a, key) == Lookup(b, key)
    ensures a == b
  {
    assert forall key :: key in a <==> Lookup(a, key).Some?;
    assert forall key :: key in b <==> Lookup(b, key).Some?;
    assert forall key | key in a :: a[key] == Lookup(a, key).value;
  }

  lemma {:induction false} ReplayConcat(m: KeyValues, a: seq<WALRecord>, b: seq<WALRecord>)
    ensures ReplayOn(m, a + b) == ReplayOn(ReplayOn(m, a), b)
  {
    if b == [] {
      assert a + b == a;
    } else {
      ReplayConcat(m, a, b[..|b| - 1]);
      assert (a + b)[..|a + b| - 1] == a + b[..|b| - 1];
    }
  }

  // ---------------------------------------------------------------- last writer per key

  predicate Touches(r: WALRecord, key: bytes) {
    r.key == key && (r.rtype == PUT || r.rtype == DELETE)
  }

  /** A PUT or DELETE of this transaction. */
  predicate WritesAs(r: WALRecord, id: uint64) {
    r.txnId == id && (r.rtype == PUT || r.rtype == DELETE)
  }

  ghost predicate Untouched(rs: seq<WALRecord>, key: bytes) {
    forall r | r in rs :: !Touches(r, key)
  }

  /** Record `i` is the last PUT or DELETE of `key` in the log. */
  ghost predicate LastWriter(rs: seq<WALRecord>, key: bytes, i: nat) {
    i < |rs| && Touches(rs[i], key) && Untouched(rs[i + 1..], key)
  }

  lemma {:induction false} ReplayKeepsUntouchedKey(m: KeyValues, rs: seq<WALRecord>, key: bytes)
    requires Untouched(rs, key)
    ensures Lookup(ReplayOn(m, rs), key) == Lookup(m, key)
  {
    if rs != [] {
      ReplayKeepsUntouchedKey(m, rs[..|rs| - 1], key);
      assert !Touches(rs[|rs| - 1], key);
    }
  }

  /** The value of a key after replay is what its last writer says. */
  lemma ReplayIsLastWriter(m: KeyValues, rs: seq<WALRecord>, key: bytes, i: nat)
    requires LastWriter(rs, key, i)
    ensures Lookup(ReplayOn(m, rs), key) == if rs[i].rtype == PUT then Some(rs[i].value) else None
  {
    assert rs == rs[..i + 1] + rs[i + 1..];
    ReplayConcat(m, rs[..i + 1], rs[i + 1..]);
    assert rs[..i + 1][..i] == rs[..i];
    ReplayKeepsUntouchedKey(ReplayOn(m, rs[..i + 1]), rs[i + 1..], key);
  }

  lemma {:induction false} FindLastWriter(rs: seq<WALRecord>, key: bytes)
    ensures Untouched(rs, key) || exists i :: LastWriter(rs, key, i)
  {
    if rs != [] && !Untouched(rs, key) {
      var n := |rs| - 1;
      if Touches(rs[n], key) {
        assert LastWriter(rs, key, n);
      } else {
        FindLastWriter(rs[..n], key);
        assert rs == rs[..n] + [rs[n]];
        var i :| LastWriter(rs[..n], key, i);
        assert rs[i + 1..] == rs[..n][i + 1..] + [rs[n]];
        assert LastWriter(rs, key, i);
      }
    }
  }

  // ---------------------------------------------------------------- what replay depends on

  /** Replay sees its starting map exactly through the keys the log does not touch. */
  lemma ReplayDependsOnUntouchedKeysIff(m: KeyValues, m': KeyValues, rs: seq<WALRecord>)
    ensures ReplayOn(m, rs) == ReplayOn(m', rs)
        <==> forall key | Untouched(rs, key) :: Lookup(m, key) == Lookup(m', key)
  {
    forall key | Untouched(rs, key)
      ensures Lookup(ReplayOn(m, rs), key) == Lookup(m, key)
      ensures Lookup(ReplayOn(m', rs), key) == Lookup(m', key)
    {
      ReplayKeepsUntouchedKey(m, rs, key);
      ReplayKeepsUntouchedKey(m', rs, key);
    }
    forall key | !Untouched(rs, key)
      ensures Lookup(ReplayOn(m, rs), key) == Lookup(ReplayOn(m', rs), key)
    {
      FindLastWriter(rs, key);
      var i :| LastWriter(rs, key, i);
      ReplayIsLastWriter(m, rs, key, i);
      ReplayIsLastWriter(m', rs, key, i);
    }
    if forall key | Untouched(rs, key) :: Lookup(m, key) == Lookup(m', key) {
      SameLookupsSameMap(ReplayOn(m, rs), ReplayOn(m', rs));
    }
  }

  /** Replaying over the replay of any prefix of the same log changes nothing; the whole log included. */
  lemma ReplayFromOwnPrefix(m: KeyValues, rs: seq<WALRecord>, j: nat)
    requires j <= |rs|
    ensures ReplayOn(ReplayOn(m, rs[..j]), rs) == ReplayOn(m, rs)
  {
    forall key | Untouched(rs, key)
      ensures Lookup(ReplayOn(m, rs[..j]), key) == Lookup(m, key)
    {
      assert forall r | r in rs[..j] :: r in rs;
      ReplayKeepsUntouchedKey(m, rs[..j], key);
    }
    ReplayDependsOnUntouchedKeysIff(ReplayOn(m, rs[..j]), m, rs);
  }

  lemma ReplayIdempotent(m: KeyValues, rs: seq<WALRecord>)
    ensures ReplayOn(ReplayOn(m, rs), rs) == ReplayOn(m, rs)
  {
    ReplayFromOwnPrefix(m, rs, |rs|);
    assert rs[..|rs|] == rs;
  }

  /**
   After `compact` the log starts empty with no snapshot of `base`. Replaying it over nothing gives
   what replaying it over `base` gives if and only if every key of `base` has been touched since.
   */
  lemma RecoveryAfterCompactionIff(base: KeyValues, rs: seq<WALRecord>)
    ensures ReplayOn(map[], rs) == ReplayOn(base, rs) <==> forall key | key in base :: !Untouched(rs, key)
  {
    ReplayDependsOnUntouchedKeysIff(map[], base, rs);
    assert forall key :: Lookup(map[], key) == None;
    assert forall key :: key in base <==> Lookup(base, key).Some?;
  }

  /** A key the log touches has the same value whatever the starting map. */
  lemma TouchedKeyForgetsStart(m: KeyValues, m': KeyValues, rs: seq<WALRecord>, key: bytes)
    requires !Untouched(rs, key)
    ensures Lookup(ReplayOn(m, rs), key) == Lookup(ReplayOn(m', rs), key)
  {
    FindLastWriter(rs, key);
    var i :| LastWriter(rs, key, i);
    ReplayIsLastWriter(m, rs, key, i);
    ReplayIsLastWriter(m', rs, key, i);
  }

  /** What a key reads as when some keys of a map are hidden. */
  lemma LookupWithout(m: KeyValues, hidden: set<bytes>, key: bytes)
    ensures Lookup(m - hidden, key) == if key in hidden then None else Lookup(m, key)
  {
  }

  /** One key of `RecoveryIsLiveIff`. */
  lemma RecoveredKeyIsLiveIff(base: KeyValues, rs: seq<WALRecord>, lost: set<bytes>, key: bytes)
    requires lost <= ReplayOn(base, rs).Keys
    ensures Lookup(ReplayOn(map[], rs), key) == Lookup(ReplayOn(base, rs) - lost, key)
            <==> if Untouched(rs, key) then key in base ==> key in lost else key !in lost
  {
    LookupWithout(ReplayOn(base, rs), lost, key);
    if Untouched(rs, key) {
      ReplayKeepsUntouchedKey(map[], rs, key);
      ReplayKeepsUntouchedKey(base, rs, key);
    } else {
      TouchedKeyForgetsStart(map[], base, rs, key);
    }
  }

  /**
   With some keys lost from the live map, replaying the new log over nothing gives the live map if
   and only if every key of `base` not touched since is lost and no lost key was touched since.
   */
  lemma RecoveryIsLiveIff(base: KeyValues, rs: seq<WALRecord>, lost: set<bytes>)
    requires lost <= ReplayOn(base, rs).Keys
    ensures ReplayOn(map[], rs) == ReplayOn(base, rs) - lost
            <==> && (forall key | key in base && Untouched(rs, key) :: key in lost)
                 && (forall key | key in lost :: Untouched(rs, key))
  {
    var live := ReplayOn(base, rs) - lost;
    forall key
      ensures Lookup(ReplayOn(map[], rs), key) == Lookup(live, key)
              <==> if Untouched(rs, key) then key in base ==> key in lost else key !in lost
    {
      RecoveredKeyIsLiveIff(base, rs, lost, key);
    }
    if forall key :: Lookup(ReplayOn(map[], rs), key) == Lookup(live, key) {
      SameLookupsSameMap(ReplayOn(map[], rs), live);
    }
  }

  // ---------------------------------------------------------------- only writes matter

  /** A PUT or DELETE, without timestamp. */
  datatype Write = SetKey(id: uint64, key: bytes, value: bytes) | EraseKey(id: uint64, key: bytes)

  function WriteOf(r: WALRecord): seq<Write> {
    if r.rtype == PUT then [SetKey(r.txnId, r.key, r.value)]
    else if r.rtype == DELETE then [EraseKey(r.txnId, r.key)]
    else []
  }

  /** The PUTs and DELETEs of a log, in order. */
  function Writes(rs: seq<WALRecord>): seq<Write> {
    if rs == [] then [] else Writes(rs[..|rs| - 1]) + WriteOf(rs[|rs| - 1])
  }

  function ApplyWrite(m: KeyValues, w: Write): KeyValues {
    match w
    case SetKey(_, key, value) => m[key := value]
    case EraseKey(_, key) => m - {key}
  }

  function ApplyWrites(m: KeyValues, ws: seq<Write>): KeyValues {
    if ws == [] then m else ApplyWrite(ApplyWrites(m, ws[..|ws| - 1]), ws[|ws| - 1])
  }

  lemma ApplyWritesSnoc(m: KeyValues, ws: seq<Write>, w: Write)
    ensures ApplyWrites(m, ws + [w]) == ApplyWrite(ApplyWrites(m, ws), w)
  {
    assert (ws + [w])[..|ws|] == ws;
  }

  /** One record's write, if it has one, behind those before it. */
  lemma ApplyWriteOf(m: KeyValues, before: seq<Write>, r: WALRecord)
    ensures ApplyWrites(m, before + WriteOf(r)) == Apply(ApplyWrites(m, before), r)
  {
    if WriteOf(r) == [] {
      assert before + [] == before;
    } else {
      ApplyWritesSnoc(m, before, WriteOf(r)[0]);
    }
  }

  lemma {:induction false} ReplayIsApplyWrites(m: KeyValues, rs: seq<WALRecord>)
    ensures ReplayOn(m, rs) == ApplyWrites(m, Writes(rs))
  {
    if rs != [] {
      ReplayIsApplyWrites(m, rs[..|rs| - 1]);
      ApplyWriteOf(m, Writes(rs[..|rs| - 1]), rs[|rs| - 1]);
    }
  }

  lemma {:induction false} WritesConcat(a: seq<WALRecord>, b: seq<WALRecord>)
    ensures Writes(a + b) == Writes(a) + Writes(b)
  {
    if b == [] {
      assert a + b == a;
    } else {
      var n := |b| - 1;
      WritesConcat(a, b[..n]);
      WithoutLast(a, b);
      Associative(Writes(a), Writes(b[..n]), WriteOf(b[n]));
    }
  }

  predicate Inert(r: WALRecord) {
    r.rtype != PUT && r.rtype != DELETE
  }

  /** COMMIT, CHECKPOINT and unknown records change nothing wherever they stand in a log. */
  lemma {:induction false} ReplayIgnoresInertRecords(m: KeyValues, a: seq<WALRecord>, inert: seq<WALRecord>, b: seq<WALRecord>)
    requires forall r | r in inert :: Inert(r)
    ensures ReplayOn(m, a + inert + b) == ReplayOn(m, a + b)
  {
    if inert == [] {
      assert a + inert == a;
    } else {
      var more := inert[..|inert| - 1];
      ReplayIgnoresInertRecords(m, a, more, b);
      ReplayConcat(m, a + inert, b);
      ReplayConcat(m, a + more, b);
      assert (a + inert)[..|a + inert| - 1] == a + more;
      assert Inert(inert[|inert| - 1]);
    }
  }
}
