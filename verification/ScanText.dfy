/**
 The text form of scan results: the server prints, the client parses by substring search. There
 is no escaping, so a double quote inside a key or value ends it early.
 */
module ScanText {
  import opened Bytes
  import opened RangeScan

  const QUOTE: byte := 0x22
  const BRACE: byte := 0x7B

  /** {"key":" */
  const KEY_MARK: bytes := [BRACE, QUOTE, 0x6B, 0x65, 0x79, QUOTE, 0x3A, QUOTE]
  /** "value":" */
  const VALUE_MARK: bytes := [QUOTE, 0x76, 0x61, 0x6C, 0x75, 0x65, QUOTE, 0x3A, QUOTE]
  /** ", */
  const MIDDLE: bytes := [QUOTE, 0x2C]
  /** "} */
  const ENTRY_END: bytes := [QUOTE, 0x7D]

  const COMMA: bytes := [0x2C]
  const OPEN: bytes := [0x5B]
  const CLOSE: bytes := [0x5D]

  // ---------------------------------------------------------------- printing

  function Entry(pair: (bytes, bytes)): bytes {
    KEY_MARK + pair.0 + MIDDLE + VALUE_MARK + pair.1 + ENTRY_END
  }

  /** The first `n` entries, with the comma that follows each entry but the last of all. */
  function Entries(pairs: Pairs, n: nat): bytes
    requires n <= |pairs|
  {
    if n == 0 then []
    else Entries(pairs, n - 1) + Entry(pairs[n - 1]) + if n < |pairs| then COMMA else []
  }

  function Printed(pairs: Pairs): bytes {
    OPEN + Entries(pairs, |pairs|) + CLOSE
  }

  method Print(pairs: Pairs) returns (text: bytes)
    ensures text == Printed(pairs)
  {
    text := OPEN;
    for i := 0 to |pairs|
      invariant text == OPEN + Entries(pairs, i)
    {
      text := text + (KEY_MARK + pairs[i].0 + MIDDLE + VALUE_MARK + pairs[i].1 + ENTRY_END);
      if i < |pairs| - 1 {
        text := text + COMMA;
      }
    }
    text := text + CLOSE;
  }

  // ---------------------------------------------------------------- searching

  predicate Occurs(text: bytes, mark: bytes, at: nat) {
    at + |mark| <= |text| && text[at..at + |mark|] == mark
  }

  /** `std::string::find`: the first occurrence at or after `from`. */
  function Find(text: bytes, mark: bytes, from: nat): (found: Option<nat>)
    ensures found.Some? ==> from <= found.value && found.value + |mark| <= |text|
    decreases |text| - from
  {
    if from + |mark| > |text| then None
    else if text[from..from + |mark|] == mark then Some(from)
    else Find(text, mark, from + 1)
  }

  lemma FindsFirst(text: bytes, mark: bytes, from: nat)
    ensures match Find(text, mark, from)
            case None => forall at | from <= at :: !Occurs(text, mark, at)
            case Some(found) =>
              Occurs(text, mark, found) && forall at | from <= at < found :: !Occurs(text, mark, at)
    decreases |text| - from
  {
    if from + |mark| <= |text| && !Occurs(text, mark, from) {
      FindsFirst(text, mark, from + 1);
    }
  }

  lemma FindIs(text: bytes, mark: bytes, from: nat, at: nat)
    requires from <= at && Occurs(text, mark, at)
    requires forall i | from <= i < at :: !Occurs(text, mark, i)
    ensures Find(text, mark, from) == Some(at)
  {
    FindsFirst(text, mark, from);
  }

  // ---------------------------------------------------------------- parsing

  /** Where one parsed pair stands in the text. */
  datatype Hit = Hit(keyAt: nat, keyEnd: nat, valueAt: nat, valueEnd: nat)

  /** The value behind a key that was found, or nothing. */
  function ValueHit(text: bytes, keyAt: nat, keyEnd: nat): (hit: Option<Hit>)
    ensures hit.Some? ==>
              var h := hit.value;
              && h.keyAt == keyAt && h.keyEnd == keyEnd
              && keyEnd + |VALUE_MARK| <= h.valueAt <= h.valueEnd < |text|
  {
    match Find(text, VALUE_MARK, keyEnd)
    case None => None
    case Some(mark) =>
      var valueAt := mark + |VALUE_MARK|;
      match Find(text, [QUOTE], valueAt)
      case None => None
      case Some(valueEnd) => Some(Hit(keyAt, keyEnd, valueAt, valueEnd))
  }

  /** One turn of the parsing loop from `pos`, or nothing if it breaks off. */
  function NextHit(text: bytes, pos: nat): (hit: Option<Hit>)
    ensures hit.Some? ==>
              var h := hit.value;
              && pos + |KEY_MARK| <= h.keyAt <= h.keyEnd
              && h.keyEnd + |VALUE_MARK| <= h.valueAt <= h.valueEnd < |text|
  {
    match Find(text, KEY_MARK, pos)
    case None => None
    case Some(mark) =>
      var keyAt := mark + |KEY_MARK|;
      match Find(text, [QUOTE], keyAt)
      case None => None
      case Some(keyEnd) => ValueHit(text, keyAt, keyEnd)
  }

  predicate Inside(h: Hit, text: bytes) {
    h.keyAt <= h.keyEnd <= h.valueAt <= h.valueEnd <= |text|
  }

  function PairAt(text: bytes, h: Hit): (bytes, bytes) {
    if Inside(h, text) then (text[h.keyAt..h.keyEnd], text[h.valueAt..h.valueEnd]) else ([], [])
  }

  /** What one turn of the loop finds, as a function of where it starts. */
  type Turn = nat -> Option<Hit>

  function TurnOf(text: bytes): Turn {
    (pos: nat) => NextHit(text, pos)
  }

  predicate QuoteFree(s: bytes) {
    QUOTE !in s
  }

  predicate QuoteFreePair(pair: (bytes, bytes)) {
    QuoteFree(pair.0) && QuoteFree(pair.1)
  }

  /** The text up to the next quote has no quote. */
  lemma NoQuoteBefore(text: bytes, from: nat)
    requires Find(text, [QUOTE], from).Some?
    ensures QuoteFree(text[from..Find(text, [QUOTE], from).value])
  {
    var end := Find(text, [QUOTE], from).value;
    FindsFirst(text, [QUOTE], from);
    forall i | from <= i < end
      ensures text[i] != QUOTE
    {
      assert !Occurs(text, [QUOTE], i);
      assert text[i..i + 1] == [text[i]];
    }
  }

  lemma NextHitIsQuoteFree(text: bytes, pos: nat)
    requires NextHit(text, pos).Some?
    ensures QuoteFreePair(PairAt(text, NextHit(text, pos).value))
  {
    var h := NextHit(text, pos).value;
    NoQuoteBefore(text, h.keyAt);
    NoQuoteBefore(text, h.valueAt);
  }

  /** The pairs found from `pos`, at most `budget` of them. */
  function Collect(text: bytes, turn: Turn, pos: nat, budget: nat): (pairs: Pairs)
    ensures |pairs| <= budget
    decreases budget
  {
    if budget == 0 then []
    else
      match turn(pos)
      case None => []
      case Some(h) => [PairAt(text, h)] + Collect(text, turn, h.valueEnd, budget - 1)
  }

  /** What the client makes of a response text: at least one pair is taken if there is one. */
  function Parsed(text: bytes, limit: nat): Pairs {
    Collect(text, TurnOf(text), 0, Max(limit, 1))
  }

  /** The searches of one turn of the loop; `None` is where it breaks off. */
  method FindPair(text: bytes, from: nat) returns (hit: Option<Hit>)
    ensures hit == NextHit(text, from)
  {
    var pos := Find(text, KEY_MARK, from);
    if pos == None {
      return None;
    }
    var keyAt := pos.value + 8;
    var keyEnd := Find(text, [QUOTE], keyAt);
    if keyEnd == None {
      return None;
    }
    pos := Find(text, VALUE_MARK, keyEnd.value);
    if pos == None {
      return None;
    }
    var valueAt := pos.value + 9;
    var valueEnd := Find(text, [QUOTE], valueAt);
    if valueEnd == None {
      return None;
    }
    return Some(Hit(keyAt, keyEnd.value, valueAt, valueEnd.value));
  }

  /** The results so far and what is still to come from `pos` are all the pairs of the text. */
  ghost predicate OnCourse(text: bytes, turn: Turn, results: Pairs, pos: nat, budget: nat) {
    |results| <= budget && results + Collect(text, turn, pos, budget - |results|) == Collect(text, turn, 0, budget)
  }

  lemma StayOnCourse(text: bytes, turn: Turn, results: Pairs, pos: nat, budget: nat)
    requires OnCourse(text, turn, results, pos, budget) && |results| < budget
    ensures match turn(pos)
            case None => results == Collect(text, turn, 0, budget)
            case Some(h) => OnCourse(text, turn, results + [PairAt(text, h)], h.valueEnd, budget)
  {
    if turn(pos).Some? {
      var h := turn(pos).value;
      Associative(results, [PairAt(text, h)], Collect(text, turn, h.valueEnd, budget - |results| - 1));
    }
  }

  method Parse(text: bytes, limit: nat) returns (results: Pairs)
    ensures results == Parsed(text, limit)
  {
    results := [];
    var pos: nat := 0;
    while true
      invariant |results| < Max(limit, 1)
      invariant pos <= |text| && OnCourse(text, TurnOf(text), results, pos, Max(limit, 1))
      decreases |text| - pos
    {
      StayOnCourse(text, TurnOf(text), results, pos, Max(limit, 1));
      var hit := FindPair(text, pos);
      if hit == None {
        break;
      }
      var h := hit.value;
      results := results + [(text[h.keyAt..h.keyEnd], text[h.valueAt..h.valueEnd])];
      pos := h.valueEnd;
      if |results| >= limit {
        break;
      }
    }
  }

  // ---------------------------------------------------------------- any text

  /** Where the parsed pairs stand. */
  function Hits(turn: Turn, pos: nat, budget: nat): seq<Hit>
    decreases budget
  {
    if budget == 0 then []
    else
      match turn(pos)
      case None => []
      case Some(h) => [h] + Hits(turn, h.valueEnd, budget - 1)
  }

  /** This hit lies behind `from`, its key before its value, and what it shows is free of quotes. */
  predicate Sound(text: bytes, h: Hit, from: nat) {
    Inside(h, text) && from < h.keyAt < h.valueAt && QuoteFreePair(PairAt(text, h))
  }

  /** Where the search for pair `i` starts. */
  function SearchStart(hits: seq<Hit>, pos: nat, i: nat): nat
    requires i <= |hits|
  {
    if i == 0 then pos else hits[i - 1].valueEnd
  }

  lemma {:induction false} HitShowsPair(text: bytes, turn: Turn, pos: nat, budget: nat, i: nat)
    requires i < |Collect(text, turn, pos, budget)|
    requires forall from | turn(from).Some? :: Sound(text, turn(from).value, from)
    ensures i < |Hits(turn, pos, budget)|
    ensures var h := Hits(turn, pos, budget)[i];
            PairAt(text, h) == Collect(text, turn, pos, budget)[i]
            && Sound(text, h, SearchStart(Hits(turn, pos, budget), pos, i))
    decreases budget
  {
    if i > 0 {
      HitShowsPair(text, turn, turn(pos).value.valueEnd, budget - 1, i - 1);
    }
  }

  /**
   On any text the parser returns at most max(limit, 1) pairs; each is free of quotes and is a pair of
   substrings, the key in front of the value, behind everything that came before.
   */
  lemma ParserOnAnyText(text: bytes, limit: nat, i: nat)
    requires i < |Parsed(text, limit)|
    ensures |Parsed(text, limit)| <= Max(limit, 1)
    ensures QuoteFreePair(Parsed(text, limit)[i])
    ensures var hits := Hits(TurnOf(text), 0, Max(limit, 1));
            && i < |hits|
            && Sound(text, hits[i], SearchStart(hits, 0, i))
            && Parsed(text, limit)[i] == PairAt(text, hits[i])
  {
    forall from | TurnOf(text)(from).Some?
      ensures Sound(text, TurnOf(text)(from).value, from)
    {
      NextHitIsQuoteFree(text, from);
    }
    HitShowsPair(text, TurnOf(text), 0, Max(limit, 1), i);
  }

  // ---------------------------------------------------------------- round trip

  lemma CannotOccur(text: bytes, mark: bytes, at: nat)
    requires mark != [] && (at < |text| ==> text[at] != mark[0])
    ensures !Occurs(text, mark, at)
  {
    if at + |mark| <= |text| {
      assert text[at..at + |mark|][0] == text[at];
    }
  }

  /** The first quote behind a quote-free stretch. */
  lemma QuoteFound(text: bytes, from: nat, stretch: bytes)
    requires QuoteFree(stretch) && from + |stretch| < |text|
    requires text[from..from + |stretch|] == stretch && text[from + |stretch|] == QUOTE
    ensures Find(text, [QUOTE], from) == Some(from + |stretch|)
  {
    var at := from + |stretch|;
    assert text[at..at + 1] == [QUOTE];
    forall i | from <= i < at
      ensures !Occurs(text, [QUOTE], i)
    {
      assert text[i] == stretch[i - from];
      assert text[i] in stretch;
      CannotOccur(text, [QUOTE], i);
    }
    FindIs(text, [QUOTE], from, at);
  }

  /** The key mark is found behind a stretch without a brace. */
  lemma KeyMarkFound(text: bytes, from: nat, at: nat)
    requires from <= at && Occurs(text, KEY_MARK, at)
    requires forall i | from <= i < at :: text[i] != BRACE
    ensures Find(text, KEY_MARK, from) == Some(at)
  {
    forall i | from <= i < at
      ensures !Occurs(text, KEY_MARK, i)
    {
      CannotOccur(text, KEY_MARK, i);
    }
    FindIs(text, KEY_MARK, from, at);
  }

  /** From the quote that ends a key, the value mark is found two bytes on. */
  lemma ValueMarkFound(text: bytes, keyEnd: nat)
    requires keyEnd + 11 <= |text|
    requires text[keyEnd..keyEnd + 2] == MIDDLE && text[keyEnd + 2..keyEnd + 11] == VALUE_MARK
    ensures Find(text, VALUE_MARK, keyEnd) == Some(keyEnd + 2)
  {
    assert text[keyEnd + 1] == text[keyEnd..keyEnd + 2][1] == 0x2C;
    CannotOccur(text, VALUE_MARK, keyEnd + 1);
    assert text[keyEnd..keyEnd + 9][1] == 0x2C;
    FindIs(text, VALUE_MARK, keyEnd, keyEnd + 2);
  }

  /** Where the parts of an entry stand. */
  function HitOfEntry(at: nat, pair: (bytes, bytes)): Hit {
    var keyEnd := at + 8 + |pair.0|;
    Hit(at + 8, keyEnd, keyEnd + 11, keyEnd + 11 + |pair.1|)
  }

  lemma EntryLayout(pair: (bytes, bytes))
    ensures var e, k, v := Entry(pair), |pair.0|, |pair.1|;
            && |e| == 21 + k + v
            && e[0..8] == KEY_MARK
            && e[8..8 + k] == pair.0
            && e[8 + k..10 + k] == MIDDLE
            && e[10 + k..19 + k] == VALUE_MARK
            && e[19 + k..19 + k + v] == pair.1
            && e[19 + k + v..21 + k + v] == ENTRY_END
  {
  }

  lemma EntryParts(text: bytes, pair: (bytes, bytes), at: nat)
    requires at + |Entry(pair)| <= |text| && text[at..at + |Entry(pair)|] == Entry(pair)
    ensures var h := HitOfEntry(at, pair);
            && h.valueEnd + 2 == at + |Entry(pair)|
            && text[at..at + 8] == KEY_MARK
            && text[h.keyAt..h.keyEnd] == pair.0
            && text[h.keyEnd..h.keyEnd + 2] == MIDDLE
            && text[h.keyEnd + 2..h.keyEnd + 11] == VALUE_MARK
            && text[h.valueAt..h.valueEnd] == pair.1
            && text[h.valueEnd..h.valueEnd + 2] == ENTRY_END
  {
    EntryLayout(pair);
    PartsWithin(text, at, Entry(pair), |pair.0|, |pair.1|);
  }

  /** The parts of an entry, moved to where the entry stands. */
  lemma PartsWithin(text: bytes, at: nat, e: bytes, k: nat, v: nat)
    requires |e| == 21 + k + v && at + |e| <= |text| && text[at..at + |e|] == e
    ensures text[at..at + 8] == e[0..8]
    ensures text[at + 8..at + 8 + k] == e[8..8 + k]
    ensures text[at + 8 + k..at + 10 + k] == e[8 + k..10 + k]
    ensures text[at + 10 + k..at + 19 + k] == e[10 + k..19 + k]
    ensures text[at + 19 + k..at + 19 + k + v] == e[19 + k..19 + k + v]
    ensures text[at + 19 + k + v..at + 21 + k + v] == e[19 + k + v..21 + k + v]
  {
    Within(text, at, e, 0, 8);
    Within(text, at, e, 8, 8 + k);
    Within(text, at, e, 8 + k, 10 + k);
    Within(text, at, e, 10 + k, 19 + k);
    Within(text, at, e, 19 + k, 19 + k + v);
    Within(text, at, e, 19 + k + v, 21 + k + v);
  }

  lemma Within<T>(text: seq<T>, at: nat, part: seq<T>, a: nat, b: nat)
    requires at + |part| <= |text| && text[at..at + |part|] == part && a <= b <= |part|
    ensures text[at + a..at + b] == part[a..b]
  {
    forall i | a <= i < b
      ensures text[at + i] == part[i]
    {
      assert text[at..at + |part|][i] == text[at + i];
    }
  }

  lemma ValueSearches(text: bytes, h: Hit)
    requires Find(text, VALUE_MARK, h.keyEnd) == Some(h.keyEnd + 2) && h.valueAt == h.keyEnd + 11
    requires Find(text, [QUOTE], h.valueAt) == Some(h.valueEnd)
    ensures ValueHit(text, h.keyAt, h.keyEnd) == Some(h)
  {
  }

  lemma KeySearches(text: bytes, from: nat, at: nat, h: Hit)
    requires Find(text, KEY_MARK, from) == Some(at) && h.keyAt == at + 8
    requires Find(text, [QUOTE], h.keyAt) == Some(h.keyEnd)
    ensures NextHit(text, from) == ValueHit(text, h.keyAt, h.keyEnd)
  {
  }

  /** The quotes that end an entry's key and value are found from where these start. */
  lemma QuotesFound(text: bytes, pair: (bytes, bytes), at: nat)
    requires at + |Entry(pair)| <= |text| && text[at..at + |Entry(pair)|] == Entry(pair)
    requires QuoteFreePair(pair)
    ensures var h := HitOfEntry(at, pair);
            && Find(text, [QUOTE], h.keyAt) == Some(h.keyEnd)
            && Find(text, [QUOTE], h.valueAt) == Some(h.valueEnd)
  {
    var h := HitOfEntry(at, pair);
    EntryParts(text, pair, at);
    EndFound(text, h.keyAt, h.keyEnd, pair.0, MIDDLE);
    EndFound(text, h.valueAt, h.valueEnd, pair.1, ENTRY_END);
  }

  lemma EndFound(text: bytes, from: nat, end: nat, stretch: bytes, mark: bytes)
    requires QuoteFree(stretch) && |mark| == 2 && mark[0] == QUOTE
    requires from <= end && end + 2 <= |text| && text[from..end] == stretch && text[end..end + 2] == mark
    ensures Find(text, [QUOTE], from) == Some(end)
  {
    assert text[end] == text[end..end + 2][0];
    QuoteFound(text, from, stretch);
  }

  /** An entry with quote-free key and value is read as it was printed. */
  lemma EntryIsFound(text: bytes, pair: (bytes, bytes), from: nat, at: nat)
    requires from <= at && at + |Entry(pair)| <= |text| && text[at..at + |Entry(pair)|] == Entry(pair)
    requires forall i | from <= i < at :: text[i] != BRACE
    requires QuoteFreePair(pair)
    ensures NextHit(text, from) == Some(HitOfEntry(at, pair))
    ensures PairAt(text, HitOfEntry(at, pair)) == pair
  {
    var h := HitOfEntry(at, pair);
    EntryParts(text, pair, at);
    KeyMarkFound(text, from, at);
    QuotesFound(text, pair, at);
    ValueMarkFound(text, h.keyEnd);
    ValueSearches(text, h);
    KeySearches(text, from, at, h);
  }

  /** Where the text of entry `i` starts. */
  function EntryAt(pairs: Pairs, i: nat): nat
    requires i <= |pairs|
  {
    1 + |Entries(pairs, i)|
  }

  lemma {:induction false} EntriesArePrefix(pairs: Pairs, i: nat, n: nat)
    requires i <= n <= |pairs|
    ensures Entries(pairs, i) <= Entries(pairs, n)
  {
    if i < n {
      EntriesArePrefix(pairs, i, n - 1);
    }
  }

  /** Behind the opening bracket stand the first entries, however many. */
  lemma FrontOfText(pairs: Pairs, i: nat)
    requires i <= |pairs|
    ensures |Printed(pairs)| == |Entries(pairs, |pairs|)| + 2 && |Entries(pairs, i)| <= |Entries(pairs, |pairs|)|
    ensures Printed(pairs)[1..1 + |Entries(pairs, i)|] == Entries(pairs, i)
    ensures Printed(pairs)[|Printed(pairs)| - 1] == 0x5D
  {
    EntriesArePrefix(pairs, i, |pairs|);
    Bracketed(Entries(pairs, |pairs|), |Entries(pairs, i)|);
  }

  lemma Bracketed(inner: bytes, n: nat)
    requires n <= |inner|
    ensures (OPEN + inner + CLOSE)[1..1 + n] == inner[..n]
    ensures (OPEN + inner + CLOSE)[|inner| + 1] == 0x5D
  {
  }

  lemma EntryInText(pairs: Pairs, i: nat)
    requires i < |pairs|
    ensures var text := Printed(pairs);
            var at := EntryAt(pairs, i);
            var end := at + |Entry(pairs[i])|;
            && end < |text| && text[at..end] == Entry(pairs[i])
            && (i + 1 < |pairs| ==> EntryAt(pairs, i + 1) == end + 1 && text[end] == 0x2C)
            && (i + 1 == |pairs| ==> end + 1 == |text| && text[end] == 0x5D)
  {
    FrontOfText(pairs, i + 1);
    MiddlePart(Printed(pairs), Entries(pairs, i), Entry(pairs[i]), if i + 1 < |pairs| then COMMA else []);
  }

  lemma MiddlePart<T>(text: seq<T>, a: seq<T>, e: seq<T>, c: seq<T>)
    requires 1 + |a + e + c| <= |text| && text[1..1 + |a + e + c|] == a + e + c
    ensures text[1 + |a|..1 + |a| + |e|] == e
    ensures forall k | 0 <= k < |c| :: text[1 + |a| + |e| + k] == c[k]
  {
    ConcatParts(a, e, c);
    Within(text, 1, a + e + c, |a|, |a| + |e|);
    forall k | 0 <= k < |c|
      ensures text[1 + |a| + |e| + k] == c[k]
    {
      assert text[1..1 + |a + e + c|][|a| + |e| + k] == text[1 + |a| + |e| + k];
    }
  }

  /** From where the parser looks for entry `i`: the quote that ended the entry before. */
  function LookFrom(pairs: Pairs, i: nat): nat
    requires i <= |pairs|
  {
    if i == 0 then 0 else HitOfEntry(EntryAt(pairs, i - 1), pairs[i - 1]).valueEnd
  }

  /** Between the quote that ended an entry and the next entry, or the end, stands no brace. */
  lemma NoBraceAfterEntry(pairs: Pairs, i: nat)
    requires i < |pairs|
    ensures var end := if i + 1 < |pairs| then EntryAt(pairs, i + 1) else |Printed(pairs)|;
            LookFrom(pairs, i + 1) <= end <= |Printed(pairs)|
            && forall j | LookFrom(pairs, i + 1) <= j < end :: Printed(pairs)[j] != BRACE
  {
    EntryInText(pairs, i);
    NoBraceAtEnd(Printed(pairs), pairs[i], EntryAt(pairs, i));
  }

  /** The three bytes from the quote that ends a value are no brace. */
  lemma NoBraceAtEnd(text: bytes, pair: (bytes, bytes), at: nat)
    requires at + |Entry(pair)| < |text| && text[at..at + |Entry(pair)|] == Entry(pair)
    requires text[at + |Entry(pair)|] != BRACE
    ensures var q := HitOfEntry(at, pair).valueEnd;
            && q + 2 == at + |Entry(pair)|
            && forall j | q <= j < q + 3 :: text[j] != BRACE
  {
    EntryEnd(text, pair, at);
  }

  lemma NoBraceBetween(pairs: Pairs, i: nat)
    requires i <= |pairs|
    ensures var end := if i < |pairs| then EntryAt(pairs, i) else |Printed(pairs)|;
            LookFrom(pairs, i) <= end <= |Printed(pairs)|
            && forall j | LookFrom(pairs, i) <= j < end :: Printed(pairs)[j] != BRACE
  {
    if i > 0 {
      NoBraceAfterEntry(pairs, i - 1);
    }
  }

  lemma EntryEnd(text: bytes, pair: (bytes, bytes), at: nat)
    requires at + |Entry(pair)| <= |text| && text[at..at + |Entry(pair)|] == Entry(pair)
    ensures var q := HitOfEntry(at, pair).valueEnd;
            q + 2 == at + |Entry(pair)| && text[q] == QUOTE && text[q + 1] == 0x7D
  {
  }

  lemma NothingFound(text: bytes, from: nat)
    requires forall j | from <= j < |text| :: text[j] != BRACE
    ensures NextHit(text, from) == None
  {
    var found := Find(text, KEY_MARK, from);
    FindsFirst(text, KEY_MARK, from);
    if found.Some? {
      CannotOccur(text, KEY_MARK, found.value);
    }
  }

  /** One turn of the loop reads entry `i` and leaves the search at the next. */
  ghost predicate TurnReads(text: bytes, turn: Turn, pairs: Pairs, i: nat)
    requires i < |pairs|
  {
    var next := turn(LookFrom(pairs, i));
    next.Some? && PairAt(text, next.value) == pairs[i] && next.value.valueEnd == LookFrom(pairs, i + 1)
  }

  lemma TurnReadsEntry(pairs: Pairs, i: nat)
    requires i < |pairs| && QuoteFreePair(pairs[i])
    ensures TurnReads(Printed(pairs), TurnOf(Printed(pairs)), pairs, i)
  {
    NoBraceBetween(pairs, i);
    EntryInText(pairs, i);
    EntryIsFound(Printed(pairs), pairs[i], LookFrom(pairs, i), EntryAt(pairs, i));
  }

  lemma TurnAfterLastEntry(pairs: Pairs)
    ensures TurnOf(Printed(pairs))(LookFrom(pairs, |pairs|)) == None
  {
    NoBraceBetween(pairs, |pairs|);
    NothingFound(Printed(pairs), LookFrom(pairs, |pairs|));
  }

  /** The entries from `i` on are read back, up to the budget. */
  lemma {:induction false} EntriesAreRead(text: bytes, turn: Turn, pairs: Pairs, i: nat, budget: nat)
    requires i <= |pairs|
    requires forall j | i <= j < |pairs| && j < i + budget :: TurnReads(text, turn, pairs, j)
    requires turn(LookFrom(pairs, |pairs|)) == None
    ensures Collect(text, turn, LookFrom(pairs, i), budget) == pairs[i..Min(|pairs|, i + budget)]
    decreases budget
  {
    if budget > 0 && i < |pairs| {
      EntriesAreRead(text, turn, pairs, i + 1, budget - 1);
      assert TurnReads(text, turn, pairs, i);
      Adjacent(pairs, i, i + 1, Min(|pairs|, i + budget));
    }
  }

  /** How many pairs the client takes from a printed list. */
  function Taken(pairs: Pairs, limit: nat): (m: nat)
    ensures m <= |pairs|
  {
    Min(|pairs|, Max(limit, 1))
  }

  ghost predicate AllQuoteFree(pairs: Pairs) {
    forall i | 0 <= i < |pairs| :: QuoteFreePair(pairs[i])
  }

  lemma QuoteFreeRoundTrip(pairs: Pairs, limit: nat)
    requires AllQuoteFree(pairs[..Taken(pairs, limit)])
    ensures Parsed(Printed(pairs), limit) == pairs[..Taken(pairs, limit)]
  {
    forall j | 0 <= j < |pairs| && j < Max(limit, 1)
      ensures TurnReads(Printed(pairs), TurnOf(Printed(pairs)), pairs, j)
    {
      assert pairs[j] == pairs[..Taken(pairs, limit)][j];
      TurnReadsEntry(pairs, j);
    }
    TurnAfterLastEntry(pairs);
    EntriesAreRead(Printed(pairs), TurnOf(Printed(pairs)), pairs, 0, Max(limit, 1));
  }

  /**
   Parsing what was printed gives back the first max(limit, 1) pairs of any list if and only if
   those pairs are free of double quotes; braces, brackets, commas and the marks' own words
   are harmless.
   */
  lemma PrintParseRoundTripIff(pairs: Pairs, limit: nat)
    ensures Parsed(Printed(pairs), limit) == pairs[..Taken(pairs, limit)]
            <==> AllQuoteFree(pairs[..Taken(pairs, limit)])
  {
    if AllQuoteFree(pairs[..Taken(pairs, limit)]) {
      QuoteFreeRoundTrip(pairs, limit);
    }
    if Parsed(Printed(pairs), limit) == pairs[..Taken(pairs, limit)] {
      forall i | 0 <= i < Taken(pairs, limit)
        ensures QuoteFreePair(pairs[i])
      {
        ParserOnAnyText(Printed(pairs), limit, i);
      }
    }
  }

  /** A key that is a double quote is not read back as printed. */
  lemma QuoteIsNotReadBack()
    ensures var pairs := [([QUOTE], [])];
            Parsed(Printed(pairs), 1) != pairs
  {
    var pairs: Pairs := [([QUOTE], [])];
    assert pairs[..1] == pairs;
    assert !QuoteFreePair(pairs[0]);
    PrintParseRoundTripIff(pairs, 1);
  }

  lemma MarksSpelledOut()
    ensures KEY_MARK == Ascii("{\"key\":\"") && VALUE_MARK == Ascii("\"value\":\"")
    ensures MIDDLE == Ascii("\",") && ENTRY_END == Ascii("\"}")
    ensures COMMA == Ascii(",") && OPEN == Ascii("[") && CLOSE == Ascii("]")
  {
  }

  /** The text of a list of two, spelled out. */
  lemma TwoPairsPrinted(k1: bytes, v1: bytes, k2: bytes, v2: bytes)
    ensures Printed([(k1, v1), (k2, v2)])
         == Ascii("[") + (Ascii("{\"key\":\"") + k1 + Ascii("\",") + Ascii("\"value\":\"") + v1 + Ascii("\"}"))
            + Ascii(",") + (Ascii("{\"key\":\"") + k2 + Ascii("\",") + Ascii("\"value\":\"") + v2 + Ascii("\"}"))
            + Ascii("]")
  {
    MarksSpelledOut();
    var pairs := [(k1, v1), (k2, v2)];
    var e1, e2 := Entry((k1, v1)), Entry((k2, v2));
    assert Entries(pairs, 0) == [] && Entries(pairs, 1) == [] + e1 + COMMA && Entries(pairs, 2) == Entries(pairs, 1) + e2 + [];
    assert OPEN + (e1 + COMMA + e2) + CLOSE == OPEN + e1 + COMMA + e2 + CLOSE;
  }

  /** Nothing found is an empty list. */
  lemma NothingPrinted()
    ensures Printed([]) == Ascii("[]")
  {
  }
}
