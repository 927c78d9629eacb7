/**
 The wildcard scan over one window of bytes, and what its answer says about the events in them.
 */
module TimedSearch {
  import opened Base
  import opened FrameCodec
  import opened WholeStream
  import opened WildcardQuery

  /** Matching a message against one wildcard query is left open: any total predicate. */
  type Matcher = (Bytes, Bytes, bool) -> bool

  /** The timestamps in [lower, upper). */
  datatype Interval = Interval(lower: Int64, upper: Int64)

  datatype Request = Request(queries: seq<Query>, interval: Interval, matches: Matcher)
  {
    /** Some query matches; with no queries at all every message is accepted. */
    predicate Accepts(message: Bytes) {
      || queries == []
      || exists i | 0 <= i < |queries| :: matches(message, queries[i].text, queries[i].caseSensitive)
    }

    /** `i` is the least index of a matching query, or 0 when there are no queries. */
    predicate Least(i: nat, message: Bytes) {
      if queries == [] then i == 0
      else
        && i < |queries| && matches(message, queries[i].text, queries[i].caseSensitive)
        && forall j | 0 <= j < i :: !matches(message, queries[j].text, queries[j].caseSensitive)
    }

    predicate Late(event: Event) {
      interval.upper <= event.timestamp
    }

    /** The event lies in the interval and some query matches, or there are no queries. */
    predicate Hit(event: Event) {
      interval.lower <= event.timestamp < interval.upper && Accepts(event.message)
    }

    /** The index of the first matching query at or after `from`, or the number of queries. */
    function FirstMatch(message: Bytes, from: nat): (i: nat)
      requires from <= |queries|
      ensures from <= i <= |queries|
      ensures i < |queries| ==> matches(message, queries[i].text, queries[i].caseSensitive)
      ensures forall j | from <= j < i :: !matches(message, queries[j].text, queries[j].caseSensitive)
      decreases |queries| - from
    {
      if from == |queries| || matches(message, queries[from].text, queries[from].caseSensitive) then from
      else FirstMatch(message, from + 1)
    }
  }

  function Moved(t: Try, offset: nat): Try {
    if t.answer.Matched? then t.(answer := t.answer.(pos := t.answer.pos + offset)) else t
  }

  /** One scan of `s`. The timestamp advances over every event walked, matching or not. */
  function Scan(r: Request, enc: Encoding, base: Int64, s: Bytes): (t: Try)
    ensures t.answer.Matched? || t.answer.Failed?
    ensures t.answer.Used() <= |s|
    decreases |s|
  {
    match Parse(s)
    case Incomplete => Try(Failed(IncompleteIr), base)
    case Corrupt => Try(Failed(CorruptedIr), base)
    case Eof => Try(Failed(EndOfIr), base)
    case Frame(field, message, size) =>
      var timestamp := Stamp(enc, base, field);
      if r.interval.upper <= timestamp then Try(Failed(QueryNotFound), timestamp)
      else if timestamp < r.interval.lower || (r.queries != [] && r.FirstMatch(message, 0) == |r.queries|) then
        Moved(Scan(r, enc, timestamp, s[size..]), size)
      else
        Try(Matched(Event(message, timestamp), size, r.FirstMatch(message, 0)), timestamp)
  }

  /** One step of the scan: it stops at the first event, or goes on behind it. */
  lemma ScanStep(r: Request, enc: Encoding, base: Int64, s: Bytes, event: Event, size: nat)
    requires Parse(s).Frame? && size == Parse(s).size
    requires event == Event(Parse(s).message, Stamp(enc, base, Parse(s).field))
    ensures Scan(r, enc, base, s) == Behind(r, event, size, Scan(r, enc, event.timestamp, s[size..]))
  {
  }

  /** The scan of `s` from `pos` on ends in `t`, told event by event; positions count in `s`. */
  predicate ScansTo(r: Request, enc: Encoding, base: Int64, s: Bytes, pos: nat, t: Try)
    decreases |s| - pos
  {
    pos <= |s| &&
    var frame := Parse(s[pos..]);
    if frame.Incomplete? then t == Try(Failed(IncompleteIr), base)
    else if frame.Corrupt? then t == Try(Failed(CorruptedIr), base)
    else if frame.Eof? then t == Try(Failed(EndOfIr), base)
    else
      var event := Event(frame.message, Stamp(enc, base, frame.field));
      var next := pos + frame.size;
      if r.Late(event) then t == Try(Failed(QueryNotFound), event.timestamp)
      else if r.Hit(event) then t == Try(Matched(event, next, r.FirstMatch(event.message, 0)), event.timestamp)
      else ScansTo(r, enc, event.timestamp, s, next, t)
  }

  /** What the scan ends in if `event` lies in front of a scan that ends in `inner`. */
  function Behind(r: Request, event: Event, size: nat, inner: Try): Try {
    if r.Late(event) then Try(Failed(QueryNotFound), event.timestamp)
    else if r.Hit(event) then Try(Matched(event, size, r.FirstMatch(event.message, 0)), event.timestamp)
    else Moved(inner, size)
  }

  lemma BehindMoved(r: Request, event: Event, size: nat, inner: Try, pos: nat)
    ensures Moved(Behind(r, event, size, inner), pos) == Behind(r, event, pos + size, inner)
  {
  }

  lemma {:induction false} ScanScans(r: Request, enc: Encoding, base: Int64, s: Bytes, pos: nat)
    requires pos <= |s|
    ensures ScansTo(r, enc, base, s, pos, Moved(Scan(r, enc, base, s[pos..]), pos))
    decreases |s| - pos
  {
    var tail := s[pos..];
    var frame := Parse(tail);
    if frame.Frame? {
      var event, next := Event(frame.message, Stamp(enc, base, frame.field)), pos + frame.size;
      var inner := Scan(r, enc, event.timestamp, s[next..]);
      assert tail[frame.size..] == s[next..];
      ScanStep(r, enc, base, tail, event, frame.size);
      BehindMoved(r, event, frame.size, inner, pos);
      ScanScans(r, enc, event.timestamp, s, next);
    }
  }

  // ----- What an answer means -----

  /** None of the first `count` events is a hit or late. */
  predicate Passed(r: Request, events: seq<Event>, count: nat)
    requires count <= |events|
  {
    forall j | 0 <= j < count :: !r.Hit(events[j]) && !r.Late(events[j])
  }

  /** The event at index `i` settles the search with this answer. */
  predicate Settles(r: Request, log: Log, s: Bytes, i: nat, answer: Answer)
    requires i < |log.events|
  {
    var event := log.events[i];
    && Passed(r, log.events, i)
    && match answer
       case Matched(e, pos, query) =>
         && r.Hit(event) && e == event && r.Least(query, event.message)
         && pos == |s| - |Skip(s, i + 1)|
       case Failed(QueryNotFound) => r.Late(event)
       case _ => false
  }

  function EndingError(ending: Ending): Error {
    match ending
    case Terminated => EndOfIr
    case Corrupted => CorruptedIr
    case Truncated => IncompleteIr
  }

  /** The answer the search of a whole log must give: the first hit, unless a late event comes
      before it; if there is neither, how the log ends. */
  predicate IsSearchOf(r: Request, log: Log, s: Bytes, answer: Answer) {
    || (exists i | 0 <= i < |log.events| :: Settles(r, log, s, i, answer))
    || (Passed(r, log.events, |log.events|) && answer == Failed(EndingError(log.ending)))
  }

  /** What settles the search behind one passed event settles the whole search. */
  lemma PassOne(r: Request, event: Event, rest: Log, s: Bytes, size: nat, inner: Try, i: nat)
    requires !r.Hit(event) && !r.Late(event)
    requires size <= |s| && i < |rest.events| && Settles(r, rest, s[size..], i, inner.answer)
    requires Skip(s, i + 2) == Skip(s[size..], i + 1)
    ensures Settles(r, Log([event] + rest.events, rest.ending), s, i + 1, Moved(inner, size).answer)
  {
    var log := Log([event] + rest.events, rest.ending);
    assert forall j | 1 <= j < |log.events| :: log.events[j] == rest.events[j - 1];
  }

  lemma {:induction false} ScanIsSearch(r: Request, enc: Encoding, base: Int64, s: Bytes)
    ensures IsSearchOf(r, Decode(enc, base, s), s, Scan(r, enc, base, s).answer)
    decreases |s|
  {
    if Parse(s).Frame? {
      var log, answer := Decode(enc, base, s), Scan(r, enc, base, s).answer;
      var event := Event(Parse(s).message, Stamp(enc, base, Parse(s).field));
      var tail := s[Parse(s).size..];
      ScanStep(r, enc, base, s, event, Parse(s).size);
      if r.Late(event) || r.Hit(event) {
        assert Skip(s, 1) == Skip(tail, 0);
        assert Settles(r, log, s, 0, answer);
      } else {
        var rest, inner := Decode(enc, event.timestamp, tail), Scan(r, enc, event.timestamp, tail);
        ScanIsSearch(r, enc, event.timestamp, tail);
        if i: nat :| i < |rest.events| && Settles(r, rest, tail, i, inner.answer) {
          assert Skip(s, i + 2) == Skip(tail, i + 1);
          PassOne(r, event, rest, s, Parse(s).size, inner, i);
        } else {
          assert forall j | 1 <= j < |log.events| :: log.events[j] == rest.events[j - 1];
        }
      }
    }
  }

  /** A match lies in the interval and is matched by the query it names, and by none before it; a search that
      gives up has come to a timestamp past the interval. */
  predicate MatchTells(queries: seq<Query>, interval: Interval, matches: Matcher, t: Try) {
    && (t.answer == Failed(QueryNotFound) ==> interval.upper <= t.timestamp)
    && (t.answer.Matched? ==>
          var message, q := t.answer.event.message, t.answer.query;
          && t.answer.event.timestamp == t.timestamp && interval.lower <= t.timestamp < interval.upper
          && (if queries == [] then q == 0
              else q < |queries| && matches(message, queries[q].text, queries[q].caseSensitive))
          && forall j | 0 <= j < q && j < |queries| :: !matches(message, queries[j].text, queries[j].caseSensitive))
  }

  lemma {:induction false} ScanTells(r: Request, enc: Encoding, base: Int64, s: Bytes)
    ensures MatchTells(r.queries, r.interval, r.matches, Scan(r, enc, base, s))
    decreases |s|
  {
    var frame := Parse(s);
    if frame.Frame? {
      var event := Event(frame.message, Stamp(enc, base, frame.field));
      ScanStep(r, enc, base, s, event, frame.size);
      if !r.Late(event) && !r.Hit(event) {
        ScanTells(r, enc, event.timestamp, s[frame.size..]);
      }
    }
  }

  /** At most one answer fits a log. */
  lemma SearchIsUnique(r: Request, log: Log, s: Bytes, one: Answer, two: Answer)
    requires IsSearchOf(r, log, s, one) && IsSearchOf(r, log, s, two)
    ensures one == two
  {
    if i: nat :| i < |log.events| && Settles(r, log, s, i, one) {
      if j: nat :| j < |log.events| && Settles(r, log, s, j, two) {
        assert i == j;
      } else {
        assert false;
      }
    }
  }

  /** Both directions: the scan's answer is the one the log calls for, and no other. */
  lemma ScanIffSearch(r: Request, enc: Encoding, base: Int64, s: Bytes, answer: Answer)
    ensures Scan(r, enc, base, s).answer == answer <==> IsSearchOf(r, Decode(enc, base, s), s, answer)
  {
    ScanIsSearch(r, enc, base, s);
    if IsSearchOf(r, Decode(enc, base, s), s, answer) {
      SearchIsUnique(r, Decode(enc, base, s), s, answer, Scan(r, enc, base, s).answer);
    }
  }

  // ----- How the scan depends on its window and its base -----

  /** More bytes never change a scan that did not run out of them. */
  lemma {:induction false} ScanStable(r: Request, enc: Encoding, base: Int64, s: Bytes, more: Bytes)
    requires !Scan(r, enc, base, s).Incomplete()
    ensures Scan(r, enc, base, s + more) == Scan(r, enc, base, s)
    decreases |s|
  {
    var frame := Parse(s);
    ParseStable(s, more);
    if frame.Frame? {
      var timestamp := Stamp(enc, base, frame.field);
      assert (s + more)[frame.size..] == s[frame.size..] + more;
      if !r.Late(Event(frame.message, timestamp)) && !r.Hit(Event(frame.message, timestamp)) {
        ScanStable(r, enc, timestamp, s[frame.size..], more);
      }
    }
  }

  /** Absolute timestamps: the answer does not depend on the base. */
  lemma EightByteIgnoresBase(r: Request, one: Int64, two: Int64, s: Bytes)
    ensures Scan(r, EightByte, one, s).answer == Scan(r, EightByte, two, s).answer
  {
  }

  /** A scan that runs out of bytes behind an event passes it. */
  lemma IncompleteBehind(r: Request, event: Event, size: nat, inner: Try)
    requires Behind(r, event, size, inner).Incomplete()
    ensures inner.Incomplete() && Behind(r, event, size, inner).timestamp == inner.timestamp
  {
  }

  lemma {:induction false} IncompleteScanWalksAll(r: Request, base: Int64, s: Bytes)
    requires Scan(r, FourByte, base, s).Incomplete()
    ensures Scan(r, FourByte, base, s).timestamp == Accumulated(base, s)
    decreases |s|
  {
    var frame := Parse(s);
    if frame.Frame? {
      var event, tail := Event(frame.message, Advance(base, frame.field)), s[frame.size..];
      ScanStep(r, FourByte, base, s, event, frame.size);
      IncompleteBehind(r, event, frame.size, Scan(r, FourByte, event.timestamp, tail));
      IncompleteScanWalksAll(r, event.timestamp, tail);
    }
  }

  /** A scan that runs out of bytes has added the differences of every complete frame in them. */
  lemma IncompleteScanAddsDeltas(r: Request, base: Int64, s: Bytes)
    requires Scan(r, FourByte, base, s).Incomplete()
    ensures MovedBy(base, DeltaSum(s), Scan(r, FourByte, base, s).timestamp)
  {
    IncompleteScanWalksAll(r, base, s);
    AccumulatedIsSum(base, s);
  }

  /** The number of events a scan walks, the one it stops at included. */
  function Walked(r: Request, enc: Encoding, base: Int64, s: Bytes): nat
    decreases |s|
  {
    match Parse(s)
    case Frame(field, message, size) =>
      var event := Event(message, Stamp(enc, base, field));
      if r.Late(event) || r.Hit(event) then 1 else 1 + Walked(r, enc, event.timestamp, s[size..])
    case _ => 0
  }

  /** The sum of the differences of the events a scan walks, the one it stops at included. */
  function WalkedSum(r: Request, base: Int64, s: Bytes): int
    decreases |s|
  {
    match Parse(s)
    case Frame(field, message, size) =>
      var event := Event(message, Advance(base, field));
      if r.Late(event) || r.Hit(event) then field else field + WalkedSum(r, event.timestamp, s[size..])
    case _ => 0
  }

  /** The timestamp of the last event a scan walks. */
  function WalkedTo(r: Request, base: Int64, s: Bytes): Int64
    decreases |s|
  {
    match Parse(s)
    case Frame(field, message, size) =>
      var event := Event(message, Advance(base, field));
      if r.Late(event) || r.Hit(event) then event.timestamp else WalkedTo(r, event.timestamp, s[size..])
    case _ => base
  }

  lemma {:induction false} ScanLeavesWalked(r: Request, base: Int64, s: Bytes)
    ensures Scan(r, FourByte, base, s).timestamp == WalkedTo(r, base, s)
    decreases |s|
  {
    var frame := Parse(s);
    if frame.Frame? {
      var event := Event(frame.message, Advance(base, frame.field));
      ScanStep(r, FourByte, base, s, event, frame.size);
      ScanLeavesWalked(r, event.timestamp, s[frame.size..]);
    }
  }

  lemma {:induction false} WalkedToIsSum(r: Request, base: Int64, s: Bytes)
    ensures MovedBy(base, WalkedSum(r, base, s), WalkedTo(r, base, s))
    decreases |s|
  {
    var frame := Parse(s);
    if frame.Frame? {
      var next, tail := Advance(base, frame.field), s[frame.size..];
      AdvanceMoves(base, frame.field);
      WalkedToIsSum(r, next, tail);
      MovesAdd(base, frame.field, WalkedSum(r, next, tail), next, WalkedTo(r, next, tail));
    } else {
      WrapUnique(base, base, 0);
    }
  }

  /** A four-byte scan adds the differences of the events it walks, whatever it answers. */
  lemma ScanAddsWalked(r: Request, base: Int64, s: Bytes)
    ensures MovedBy(base, WalkedSum(r, base, s), Scan(r, FourByte, base, s).timestamp)
  {
    ScanLeavesWalked(r, base, s);
    WalkedToIsSum(r, base, s);
  }

  /** A match leaves the timestamp of the matching event. */
  lemma {:induction false} MatchLeavesItsTimestamp(r: Request, enc: Encoding, base: Int64, s: Bytes)
    requires Scan(r, enc, base, s).answer.Matched?
    ensures Scan(r, enc, base, s).timestamp == Scan(r, enc, base, s).answer.event.timestamp
    decreases |s|
  {
    var frame := Parse(s);
    var event := Event(frame.message, Stamp(enc, base, frame.field));
    ScanStep(r, enc, base, s, event, frame.size);
    if !r.Late(event) && !r.Hit(event) {
      MatchLeavesItsTimestamp(r, enc, event.timestamp, s[frame.size..]);
    }
  }

  /** Differences: two bases whose scans walk the same number of events to the same answer and
      timestamp are the same base. For a match, an end of stream or a corrupt frame, the answer is enough. */
  lemma {:induction false} AnswerPinsBase(r: Request, one: Int64, two: Int64, s: Bytes)
    requires Scan(r, FourByte, one, s) == Scan(r, FourByte, two, s)
    requires || Walked(r, FourByte, one, s) == Walked(r, FourByte, two, s)
             || Scan(r, FourByte, one, s).answer.Matched?
             || Scan(r, FourByte, one, s).answer == Failed(EndOfIr)
             || Scan(r, FourByte, one, s).answer == Failed(CorruptedIr)
    ensures one == two
    decreases |s|
  {
    var frame := Parse(s);
    if frame.Frame? {
      var first := Event(frame.message, Advance(one, frame.field));
      var second := Event(frame.message, Advance(two, frame.field));
      var tail := s[frame.size..];
      var stop1, stop2 := r.Hit(first) || r.Late(first), r.Hit(second) || r.Late(second);
      if !stop1 && !stop2 {
        var a, b := Scan(r, FourByte, first.timestamp, tail), Scan(r, FourByte, second.timestamp, tail);
        assert a == b;
        AnswerPinsBase(r, first.timestamp, second.timestamp, tail);
      } else if stop1 != stop2 {
        // the scan that goes on walks further, and a match of its own lies further on
        WalkedUntil(r, if stop1 then second.timestamp else first.timestamp, tail);
      }
      AdvanceInjective(one, two, frame.field);
    }
  }

  /** A scan that stops at an event has walked one, and a match lies past the bytes of an event. */
  lemma WalkedUntil(r: Request, base: Int64, s: Bytes)
    ensures var answer := Scan(r, FourByte, base, s).answer;
            && (answer.Matched? ==> answer.pos > 0)
            && (answer.Matched? || answer == Failed(QueryNotFound) ==> Walked(r, FourByte, base, s) > 0)
  {
  }

  // ----- Sorted logs -----

  predicate Sorted(events: seq<Event>) {
    forall i, j | 0 <= i < j < |events| :: events[i].timestamp <= events[j].timestamp
  }

  /** On a log in timestamp order the early exit misses nothing. */
  lemma EarlyExitIsComplete(r: Request, log: Log, s: Bytes)
    requires Sorted(log.events)
    requires IsSearchOf(r, log, s, Failed(QueryNotFound))
    ensures forall i | 0 <= i < |log.events| :: !r.Hit(log.events[i])
  {
  }
}
