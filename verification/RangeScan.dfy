/**
 Range scans: keys compare as byte strings, the map is visited in an arbitrary order, and the
 visit stops once the result has `limit` entries.
 */
module RangeScan {
  import opened Bytes
  import opened Replay

  type Pairs = seq<(bytes, bytes)>

  /** `std::string` order: the first differing byte decides, a proper prefix comes first. */
  predicate Less(a: bytes, b: bytes) {
    if b == [] then false
    else if a == [] then true
    else a[0] < b[0] || (a[0] == b[0] && Less(a[1..], b[1..]))
  }

  /** start <= key < end. */
  predicate InRange(key: bytes, start: bytes, end: bytes) {
    !Less(key, start) && Less(key, end)
  }

  /** The strings agree up to `i`; there the first one ends or has the smaller byte. */
  predicate SmallerAt(a: bytes, b: bytes, i: nat) {
    i <= |a| && i < |b| && a[..i] == b[..i] && (i == |a| || a[i] < b[i])
  }

  lemma SmallerAtCons(a: bytes, b: bytes, i: nat)
    requires a != [] && b != [] && a[0] == b[0]
    ensures SmallerAt(a, b, i + 1) <==> SmallerAt(a[1..], b[1..], i)
  {
    if i < |a| && i < |b| {
      assert a[..i + 1] == [a[0]] + a[1..][..i];
      assert b[..i + 1] == [b[0]] + b[1..][..i];
    }
  }

  lemma SameFirst(a: bytes, b: bytes, i: nat)
    requires 0 < i <= |a| && i <= |b| && a[..i] == b[..i]
    ensures a[0] == b[0]
  {
    assert a[..i][0] == b[..i][0];
  }

  /** `Less` is the lexicographic order: the first difference decides, and a proper prefix is smaller. */
  lemma {:induction false} LessIff(a: bytes, b: bytes)
    ensures Less(a, b) <==> exists i: nat :: SmallerAt(a, b, i)
  {
    assert SmallerAt(a, b, 0) <==> b != [] && (a == [] || a[0] < b[0]);
    forall i: nat | SmallerAt(a, b, i) && i > 0
      ensures a[0] == b[0]
    {
      SameFirst(a, b, i);
    }
    if a != [] && b != [] && a[0] == b[0] {
      LessIff(a[1..], b[1..]);
      if i: nat :| SmallerAt(a[1..], b[1..], i) {
        SmallerAtCons(a, b, i);
        assert SmallerAt(a, b, i + 1);
      }
      if i: nat :| SmallerAt(a, b, i) {
        SmallerAtCons(a, b, i - 1);
      }
    }
  }

  lemma {:induction false} LessTransitive(a: bytes, b: bytes, c: bytes)
    requires Less(a, b) && Less(b, c)
    ensures Less(a, c)
  {
    if a != [] && a[0] == b[0] && b[0] == c[0] {
      LessTransitive(a[1..], b[1..], c[1..]);
    }
  }

  lemma {:induction false} LessTrichotomy(a: bytes, b: bytes)
    ensures Less(a, b) ==> !Less(b, a) && a != b
    ensures !Less(a, b) && !Less(b, a) ==> a == b
  {
    if a != [] && b != [] && a[0] == b[0] {
      LessTrichotomy(a[1..], b[1..]);
      assert a == [a[0]] + a[1..] && b == [b[0]] + b[1..];
    }
  }

  /** The range has its start, if it has anything, and not its end. */
  lemma InRangeIff(key: bytes, start: bytes, end: bytes)
    ensures InRange(key, start, end) <==> (key == start || Less(start, key)) && Less(key, end)
  {
    LessTrichotomy(start, key);
  }

  /** For a <= b <= c, a key is in [a,c) when it is in exactly one of [a,b) and [b,c). */
  lemma RangesSplit(key: bytes, a: bytes, b: bytes, c: bytes)
    requires !Less(b, a) && !Less(c, b)
    ensures InRange(key, a, c) <==> InRange(key, a, b) || InRange(key, b, c)
    ensures !(InRange(key, a, b) && InRange(key, b, c))
  {
    LessTrichotomy(key, b);
    LessTrichotomy(b, c);
    LessTrichotomy(a, b);
    if Less(key, b) && Less(b, c) {
      LessTransitive(key, b, c);
    }
    if Less(key, a) && Less(a, b) {
      LessTransitive(key, a, b);
    }
  }

  ghost predicate DistinctKeys(pairs: Pairs) {
    forall i, j | 0 <= i < j < |pairs| :: pairs[i].0 != pairs[j].0
  }

  ghost predicate PairsOf(pairs: Pairs, m: KeyValues) {
    forall i | 0 <= i < |pairs| :: pairs[i].0 in m && m[pairs[i].0] == pairs[i].1
  }

  /** `order` visits every entry of the map once. */
  ghost predicate Enumerates(order: Pairs, m: KeyValues) {
    && DistinctKeys(order)
    && PairsOf(order, m)
    && |order| == |m|
  }

  ghost function KeysOf(pairs: Pairs): set<bytes> {
    set i | 0 <= i < |pairs| :: pairs[i].0
  }

  ghost function KeysInRange(m: KeyValues, start: bytes, end: bytes): set<bytes> {
    set key | key in m && InRange(key, start, end)
  }

  /**
   What a scan promises whatever order the map is visited in: no key twice, only live pairs in
   the range, and as many as there are up to max(limit, 1).
   */
  ghost predicate IsScan(m: KeyValues, start: bytes, end: bytes, limit: nat, result: Pairs) {
    && DistinctKeys(result)
    && PairsOf(result, m)
    && (forall i | 0 <= i < |result| :: InRange(result[i].0, start, end))
    && |result| == Min(Max(limit, 1), |KeysInRange(m, start, end)|)
  }

  lemma {:induction false} KeysOfCount(pairs: Pairs)
    requires DistinctKeys(pairs)
    ensures |KeysOf(pairs)| == |pairs|
  {
    if pairs == [] {
      assert KeysOf(pairs) == {};
    } else {
      var n := |pairs| - 1;
      KeysOfCount(pairs[..n]);
      assert KeysOf(pairs) == KeysOf(pairs[..n]) + {pairs[n].0};
      assert pairs[n].0 !in KeysOf(pairs[..n]);
    }
  }

  lemma KeysOfSnoc(pairs: Pairs, p: (bytes, bytes))
    ensures KeysOf(pairs + [p]) == KeysOf(pairs) + {p.0}
  {
    var all := pairs + [p];
    forall key | key in KeysOf(pairs) + {p.0}
      ensures key in KeysOf(all)
    {
      if key == p.0 {
        assert all[|pairs|].0 == key;
      } else {
        var i :| 0 <= i < |pairs| && pairs[i].0 == key;
        assert all[i].0 == key;
      }
    }
  }

  lemma SubsetOfSameSize<T>(a: set<T>, b: set<T>)
    requires a <= b && |a| == |b|
    ensures a == b
  {
    assert |b - a| == |b| - |a|;
  }

  /** An enumeration misses no key. */
  lemma EnumeratesAll(order: Pairs, m: KeyValues)
    requires Enumerates(order, m)
    ensures KeysOf(order) == m.Keys
  {
    KeysOfCount(order);
    SubsetOfSameSize(KeysOf(order), m.Keys);
  }

  /** The visited pairs that lie in the range. */
  function Matches(order: Pairs, start: bytes, end: bytes): Pairs {
    if order == [] then []
    else
      var n := |order| - 1;
      Matches(order[..n], start, end) + if InRange(order[n].0, start, end) then [order[n]] else []
  }

  lemma {:induction false} MatchesAreLive(order: Pairs, m: KeyValues, start: bytes, end: bytes)
    requires DistinctKeys(order) && PairsOf(order, m)
    ensures DistinctKeys(Matches(order, start, end)) && PairsOf(Matches(order, start, end), m)
    ensures KeysOf(Matches(order, start, end)) == set key | key in KeysOf(order) && InRange(key, start, end)
  {
    if order != [] {
      var n := |order| - 1;
      var before := Matches(order[..n], start, end);
      MatchesAreLive(order[..n], m, start, end);
      KeysOfSnoc(order[..n], order[n]);
      KeysOfSnoc(before, order[n]);
      assert order == order[..n] + [order[n]];
      assert before + [] == before;
      assert order[n].0 !in KeysOf(order[..n]);
      forall i | 0 <= i < |before|
        ensures before[i].0 != order[n].0
      {
        assert before[i].0 in KeysOf(before);
      }
    }
  }

  /** The result of a visit in this order: the first max(limit, 1) matches. */
  function ScanOf(order: Pairs, start: bytes, end: bytes, limit: nat): Pairs {
    var matches := Matches(order, start, end);
    matches[..Min(|matches|, Max(limit, 1))]
  }

  lemma {:induction false} MatchesGrow(order: Pairs, n: nat, start: bytes, end: bytes)
    requires n <= |order|
    ensures Matches(order[..n], start, end) <= Matches(order, start, end)
  {
    if n == |order| {
      assert order[..n] == order;
    } else {
      var m := |order| - 1;
      MatchesGrow(order[..m], n, start, end);
      assert order[..m][..n] == order[..n];
    }
  }

  /** Whatever the order of the visit, its result is a scan. */
  lemma ScanOfIsScan(m: KeyValues, order: Pairs, start: bytes, end: bytes, limit: nat)
    requires Enumerates(order, m)
    ensures IsScan(m, start, end, limit, ScanOf(order, start, end, limit))
  {
    var matches := Matches(order, start, end);
    MatchesAreLive(order, m, start, end);
    EnumeratesAll(order, m);
    assert KeysOf(matches) == KeysInRange(m, start, end);
    KeysOfCount(matches);
    forall i | 0 <= i < |matches|
      ensures InRange(matches[i].0, start, end)
    {
      assert matches[i].0 in KeysOf(matches);
    }
  }

  method Scan(order: Pairs, start: bytes, end: bytes, limit: nat) returns (result: Pairs)
    ensures result == ScanOf(order, start, end, limit)
  {
    result := [];
    for i := 0 to |order|
      invariant result == Matches(order[..i], start, end)
      invariant |result| < Max(limit, 1)
    {
      assert order[..i + 1][..i] == order[..i];
      if !Less(order[i].0, start) && Less(order[i].0, end) {
        result := result + [order[i]];
        if |result| >= limit {
          MatchesGrow(order, i + 1, start, end);
          return;
        }
      }
    }
    assert order[..|order|] == order;
  }

  lemma SubsetNoLarger<T>(a: set<T>, b: set<T>)
    requires a <= b
    ensures |a| <= |b|
  {
    assert |b - a| == |b| - |a|;
  }

  /** A scan whose limit exceeds the map returns every matching key. */
  lemma UnlimitedScanIsComplete(m: KeyValues, start: bytes, end: bytes, limit: nat, result: Pairs)
    requires IsScan(m, start, end, limit, result) && limit >= |m|
    ensures KeysOf(result) == KeysInRange(m, start, end)
  {
    KeysOfCount(result);
    SubsetNoLarger(KeysInRange(m, start, end), m.Keys);
    SubsetOfSameSize(KeysOf(result), KeysInRange(m, start, end));
  }

  lemma RangeKeysSplit(m: KeyValues, a: bytes, b: bytes, c: bytes)
    requires !Less(b, a) && !Less(c, b)
    ensures KeysInRange(m, a, b) !! KeysInRange(m, b, c)
    ensures KeysInRange(m, a, b) + KeysInRange(m, b, c) == KeysInRange(m, a, c)
  {
    forall key | key in m
      ensures InRange(key, a, c) <==> InRange(key, a, b) || InRange(key, b, c)
      ensures !(InRange(key, a, b) && InRange(key, b, c))
    {
      RangesSplit(key, a, b, c);
    }
  }

  lemma SameCounts(x: Pairs, y: Pairs, z: Pairs)
    requires forall p :: multiset(z)[p] == multiset(x)[p] + multiset(y)[p]
    ensures multiset(x) + multiset(y) == multiset(z)
  {
  }

  /** Unlimited scans of [a,b) and [b,c) partition the unlimited scan of [a,c). */
  lemma ScansPartition(m: KeyValues, a: bytes, b: bytes, c: bytes, limit: nat, ab: Pairs, bc: Pairs, ac: Pairs)
    requires !Less(b, a) && !Less(c, b) && limit >= |m|
    requires IsScan(m, a, b, limit, ab) && IsScan(m, b, c, limit, bc) && IsScan(m, a, c, limit, ac)
    ensures KeysOf(ab) !! KeysOf(bc)
    ensures KeysOf(ab) + KeysOf(bc) == KeysOf(ac)
    ensures |ab| + |bc| == |ac|
    ensures multiset(ab) + multiset(bc) == multiset(ac)
  {
    UnlimitedScanIsComplete(m, a, b, limit, ab);
    UnlimitedScanIsComplete(m, b, c, limit, bc);
    UnlimitedScanIsComplete(m, a, c, limit, ac);
    RangeKeysSplit(m, a, b, c);
    KeysOfCount(ab);
    KeysOfCount(bc);
    KeysOfCount(ac);
    PairMultiset(ab, m);
    PairMultiset(bc, m);
    PairMultiset(ac, m);
    assert |KeysOf(ab) + KeysOf(bc)| == |KeysOf(ab)| + |KeysOf(bc)|;
    SameCounts(ab, bc, ac);
  }

  /** Distinct pairs of a map: each pair counts once, and it is there when its key is. */
  lemma {:induction false} PairMultiset(pairs: Pairs, m: KeyValues)
    requires DistinctKeys(pairs) && PairsOf(pairs, m)
    ensures forall p :: multiset(pairs)[p] == if p.0 in KeysOf(pairs) && m[p.0] == p.1 then 1 else 0
  {
    if pairs != [] {
      var n := |pairs| - 1;
      PairMultiset(pairs[..n], m);
      assert pairs == pairs[..n] + [pairs[n]];
      assert KeysOf(pairs) == KeysOf(pairs[..n]) + {pairs[n].0};
      assert pairs[n].0 !in KeysOf(pairs[..n]);
    }
  }

  // ---------------------------------------------------------------- every scan is some visit's

  lemma {:induction false} SomeOrder(m: KeyValues) returns (order: Pairs)
    ensures Enumerates(order, m)
  {
    if m == map[] {
      order := [];
    } else {
      var key :| key in m;
      var rest := SomeOrder(m - {key});
      order := rest + [(key, m[key])];
      assert (m - {key}).Keys == m.Keys - {key};
    }
  }

  lemma {:induction false} MatchesConcat(a: Pairs, b: Pairs, start: bytes, end: bytes)
    ensures Matches(a + b, start, end) == Matches(a, start, end) + Matches(b, start, end)
  {
    if b == [] {
      assert a + b == a;
    } else {
      var n := |b| - 1;
      var last := if InRange(b[n].0, start, end) then [b[n]] else [];
      WithoutLast(a, b);
      MatchesConcat(a, b[..n], start, end);
      Associative(Matches(a, start, end), Matches(b[..n], start, end), last);
    }
  }

  lemma {:induction false} AllMatch(pairs: Pairs, start: bytes, end: bytes)
    requires forall i | 0 <= i < |pairs| :: InRange(pairs[i].0, start, end)
    ensures Matches(pairs, start, end) == pairs
  {
    if pairs != [] {
      var n := |pairs| - 1;
      AllMatch(pairs[..n], start, end);
      assert pairs == pairs[..n] + [pairs[n]];
    }
  }

  lemma {:induction false} NoneMatch(pairs: Pairs, start: bytes, end: bytes)
    requires forall i | 0 <= i < |pairs| :: !InRange(pairs[i].0, start, end)
    ensures Matches(pairs, start, end) == []
  {
    if pairs != [] {
      NoneMatch(pairs[..|pairs| - 1], start, end);
    }
  }

  /** Some pairs of a map, then all others, visit it once. */
  lemma FrontFirst(m: KeyValues, front: Pairs) returns (rest: Pairs)
    requires DistinctKeys(front) && PairsOf(front, m)
    ensures Enumerates(front + rest, m)
    ensures forall i | 0 <= i < |rest| :: rest[i].0 in m && rest[i].0 !in KeysOf(front)
  {
    rest := SomeOrder(m - KeysOf(front));
    KeysOfCount(front);
    assert KeysOf(front) <= m.Keys;
    assert (m - KeysOf(front)).Keys == m.Keys - KeysOf(front);
    assert |m.Keys - KeysOf(front)| == |m.Keys| - |KeysOf(front)|;
    forall i, j | 0 <= i < |front| && 0 <= j < |rest|
      ensures front[i].0 != rest[j].0
    {
      assert front[i].0 in KeysOf(front);
    }
  }

  /** Whatever a scan may return, it returns for some order of the visit. */
  lemma EveryScanHasAnOrder(m: KeyValues, start: bytes, end: bytes, limit: nat, result: Pairs) returns (order: Pairs)
    requires IsScan(m, start, end, limit, result)
    ensures Enumerates(order, m) && ScanOf(order, start, end, limit) == result
  {
    var rest := FrontFirst(m, result);
    order := result + rest;
    MatchesConcat(result, rest, start, end);
    AllMatch(result, start, end);
    if |result| < Max(limit, 1) {
      ScanFoundAll(m, start, end, limit, result);
      NoneMatch(rest, start, end);
    }
  }

  /** A scan that stops short of its limit has found every match. */
  lemma ScanFoundAll(m: KeyValues, start: bytes, end: bytes, limit: nat, result: Pairs)
    requires IsScan(m, start, end, limit, result) && |result| < Max(limit, 1)
    ensures KeysOf(result) == KeysInRange(m, start, end)
  {
    KeysOfCount(result);
    SubsetOfSameSize(KeysOf(result), KeysInRange(m, start, end));
  }
}
