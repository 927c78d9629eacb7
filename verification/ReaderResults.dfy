/**
 What the reader's methods return and leave, told by the stream's log and the source's plan alone. Nothing a
 method computes with occurs in these statements.
 */
module ReaderResults {
  import opened Base
  import opened FrameCodec
  import opened WholeStream
  import opened TimedSearch
  import opened RetryLoop
  import opened DecodingCalls
  import opened ReaderRuns
  import opened SearchRuns
  import opened FourByteSearch
  import opened FourByteState
  import opened LogRuns

  // ----- Read -----

  /** `n` has everything that was left of `m`. */
  predicate Untouched(enc: Encoding, m: Machine, n: Machine) {
    n.Remaining() == m.Remaining() && LogOf(enc, n) == LogOf(enc, m)
  }

  /** Read from `m` to `n` returns `r`: the error of the planned read that broke, or else the first event of the
      log, or how the log ends. */
  predicate ReadTells(enc: Encoding, m: Machine, n: Machine, r: Result<Event>) {
    var log := LogOf(enc, m);
    if r.Failure? && r.error.SourceError? then
      Asked(m.feed, n.feed, Some(r.error.code)) && Untouched(enc, m, n)
    else
      && Asked(m.feed, n.feed, None)
      && if log.events != [] then
           && r == Success(log.events[0])
           && n.Remaining() == Skip(m.Remaining(), 1) && LogOf(enc, n) == Log(log.events[1..], log.ending)
         else
           && Untouched(enc, m, n)
           && match log.ending
              case Terminated => r == Failure(EndOfIr)
              case Corrupted => r == Failure(CorruptedIr)
              case Truncated => false
  }

  lemma ReadReturns(f: Decoder, enc: Encoding, m: Machine, refills: nat)
    requires m.Valid() && Reads(f, enc) && Retry(f, m, refills).Done?
    ensures var o := Retry(f, m, refills); ReadTells(enc, m, o.m, EventOf(o.answer))
  {
    var g := Reading(enc);
    forall base, window ensures f(base, window) == g(base, window) {
      assert g(base, window) == AttemptNext(enc, base, window);
    }
    RetrySame(f, g, m, refills);
    ReadingIsStable(enc);
    RetryAsks(g, m, refills, Retry(g, m, refills));
    ReadOne(enc, m, refills);
  }

  // ----- ReadToFunc -----

  /** ReadToFunc(f) from `m` to `n` returns `r` after passing over the first `passed` events, none of them
      accepted: the error of the planned read that broke, or else the accepted event behind them, or how the
      log ends. */
  predicate FindTells(enc: Encoding, f: Event -> bool, m: Machine, n: Machine, r: Result<Event>, passed: nat) {
    var log := LogOf(enc, m);
    && passed <= |log.events| && (forall j | 0 <= j < passed :: !f(log.events[j]))
    && if r.Failure? && r.error.SourceError? then
         && Asked(m.feed, n.feed, Some(r.error.code))
         && n.Remaining() == Skip(m.Remaining(), passed) && LogOf(enc, n) == Log(log.events[passed..], log.ending)
       else
         && Asked(m.feed, n.feed, None)
         && if passed < |log.events| then
              && f(log.events[passed]) && r == Success(log.events[passed])
              && n.Remaining() == Skip(m.Remaining(), passed + 1)
              && LogOf(enc, n) == Log(log.events[passed + 1..], log.ending)
            else
              && n.Remaining() == Skip(m.Remaining(), passed) && LogOf(enc, n) == Log([], log.ending)
              && match log.ending
                 case Terminated => r == Failure(EndOfIr)
                 case Corrupted => r == Failure(CorruptedIr)
                 case Truncated => false
  }

  lemma AskedThen(before: Feed, middle: Feed, after: Feed, broken: Option<int>)
    requires Asked(before, middle, None) && Asked(middle, after, broken)
    ensures Asked(before, after, broken)
  {
    var first := |before.plan| - |middle.plan|;
    assert forall j | first <= j < |before.plan| :: before.plan[j] == middle.plan[j - first];
  }

  lemma {:induction false} ReadToAsks(enc: Encoding, f: Event -> bool, m: Machine, refills: nat, o: Outcome)
    requires m.Valid() && o == ReadTo(enc, f, m, refills)
    ensures Asked(m.feed, o.m.feed, Forwarded(o))
    decreases |m.Remaining()|
  {
    var first := Retry(Reading(enc), m, refills);
    ReadingIsStable(enc);
    RetryAsks(Reading(enc), m, refills, first);
    if first.Done? && first.answer.Got? && !f(first.answer.event) {
      ReadConsumes(enc, m, refills);
      ReadToAsks(enc, f, first.m, refills, o);
      AskedThen(m.feed, first.m.feed, o.m.feed, Forwarded(o));
    }
  }

  lemma FindReturns(enc: Encoding, f: Event -> bool, m: Machine, refills: nat, o: Outcome) returns (passed: nat)
    requires m.Valid() && o == ReadTo(enc, f, m, refills) && o.Done?
    ensures FindTells(enc, f, m, o.m, EventOf(o.answer), passed)
  {
    passed := ReadToFinds(enc, f, m, refills, o);
    ReadToAsks(enc, f, m, refills, o);
    ReadToAnswers(enc, f, m, refills, o);
  }

  lemma {:induction false} ReadToAnswers(enc: Encoding, f: Event -> bool, m: Machine, refills: nat, o: Outcome)
    requires m.Valid() && o == ReadTo(enc, f, m, refills) && o.Done?
    ensures o.answer.Got? || o.answer.Failed?
    decreases |m.Remaining()|
  {
    ReadOne(enc, m, refills);
    var first := Retry(Reading(enc), m, refills);
    if first.Done? && first.answer.Got? && !f(first.answer.event) {
      ReadToAnswers(enc, f, first.m, refills, o);
    }
  }

  // ----- The wildcard reads -----

  /** How far the failed attempts of a search have moved the timestamps it sees. */
  function DriftOf(r: Request, enc: Encoding, m: Machine, refills: nat): int
    requires m.Valid()
  {
    if enc.FourByte? then SearchDrift(r, m, refills) else 0
  }

  /** `q` is the index of the first query that matches the message; with no queries it is 0. */
  predicate FirstQuery(r: Request, message: Bytes, q: nat) {
    if r.queries == [] then q == 0
    else
      && q < |r.queries| && r.matches(message, r.queries[q].text, r.queries[q].caseSensitive)
      && forall j | 0 <= j < q :: !r.matches(message, r.queries[j].text, r.queries[j].caseSensitive)
  }

  predicate SomeQuery(r: Request, message: Bytes) {
    || r.queries == []
    || exists i | 0 <= i < |r.queries| :: r.matches(message, r.queries[i].text, r.queries[i].caseSensitive)
  }

  /** The event is neither past the interval nor in it with a matching query. */
  predicate PassedOver(r: Request, event: Event) {
    && event.timestamp < r.interval.upper
    && (event.timestamp < r.interval.lower || !SomeQuery(r, event.message))
  }

  /** What the search of a log that stops behind `passed` events returns. */
  predicate StopTells(r: Request, log: Log, passed: nat, result: Result<(Event, nat)>) {
    && passed <= |log.events| && (forall j | 0 <= j < passed :: PassedOver(r, log.events[j]))
    && if passed == |log.events| then
         match log.ending
         case Terminated => result == Failure(EndOfIr)
         case Corrupted => result == Failure(CorruptedIr)
         case Truncated => false
       else if r.interval.upper <= log.events[passed].timestamp then result == Failure(QueryNotFound)
       else
         && result.Success? && result.value.0 == log.events[passed]
         && r.interval.lower <= log.events[passed].timestamp
         && FirstQuery(r, log.events[passed].message, result.value.1)
  }

  /** The wildcard read from `m` to `n` returns `result`: the error of the planned read that broke, or else what
      the log calls for once its timestamps are moved by `drift`, behind `passed` events. Only a match uses
      bytes; what is left has its timestamps moved by `shift`. */
  predicate SearchTells(
    r: Request, enc: Encoding, m: Machine, n: Machine, drift: int, shift: int, result: Result<(Event, nat)>,
    passed: nat)
  {
    if result.Failure? && result.error.SourceError? then
      Asked(m.feed, n.feed, Some(result.error.code)) && LeavesShifted(enc, m, 0, shift, n)
    else
      && Asked(m.feed, n.feed, None)
      && StopTells(r, Shifted(LogOf(enc, m), drift), passed, result)
      && LeavesShifted(enc, m, if result.Success? then passed + 1 else 0, shift, n)
  }

  /** How far a search moves the timestamps of what it leaves. */
  function ShiftBy(r: Request, enc: Encoding, m: Machine, refills: nat): int
    requires m.Valid()
  {
    if enc.FourByte? then SearchShift(r, m, refills) else 0
  }

  lemma PassedTells(r: Request, events: seq<Event>, count: nat)
    requires count <= |events| && Passed(r, events, count)
    ensures forall j | 0 <= j < count :: PassedOver(r, events[j])
  {
  }

  lemma SettledTells(r: Request, log: Log, s: Bytes, i: nat, answer: Answer)
    requires i < |log.events| && Settles(r, log, s, i, answer)
    ensures StopTells(r, log, i, MatchOf(answer))
  {
    PassedTells(r, log.events, i);
  }

  /** A failure of a search of a log, other than running out of bytes, is told by the log. */
  lemma FailureTells(r: Request, log: Log, s: Bytes, answer: Answer) returns (passed: nat)
    requires IsSearchOf(r, log, s, answer) && answer.Failed? && answer.error != IncompleteIr
    ensures StopTells(r, log, passed, MatchOf(answer))
  {
    if i: nat :| i < |log.events| && Settles(r, log, s, i, answer) {
      passed := i;
      SettledTells(r, log, s, i, answer);
    } else {
      passed := |log.events|;
      PassedTells(r, log.events, passed);
    }
  }

  lemma EightByteReturns(r: Request, m: Machine, refills: nat, o: Outcome) returns (passed: nat)
    requires m.Valid() && o == Retry(Searching(r, EightByte), m, refills) && o.Genuine()
    ensures StopTells(r, LogOf(EightByte, m), passed, MatchOf(o.answer))
    ensures LeavesShifted(EightByte, m, if o.answer.Matched? then passed + 1 else 0, 0, o.m)
    ensures o.answer.Matched? || o.answer.Failed?
  {
    var log := LogOf(EightByte, m);
    SearchRuns.SearchOnlyMatches(r, m, refills);
    var i := SearchConsumes(r, m, refills);
    if o.answer.Matched? {
      passed := i;
      SettledTells(r, log, m.Remaining(), i, o.answer);
      NoShift(EightByte, m, i + 1, o.m);
    } else {
      SearchRefines(r, m, refills, o.answer);
      SearchingIsStable(r, EightByte);
      RetryIsOneAttempt(Searching(r, EightByte), m, refills);
      passed := FailureTells(r, log, m.Remaining(), o.answer);
      assert log.events[0..] == log.events;
      NoShift(EightByte, m, 0, o.m);
    }
  }

  lemma FourByteReturns(r: Request, m: Machine, refills: nat, o: Outcome) returns (passed: nat)
    requires m.Valid() && o == Retry(Searching(r, FourByte), m, refills) && o.Genuine()
    ensures StopTells(r, Shifted(LogOf(FourByte, m), SearchDrift(r, m, refills)), passed, MatchOf(o.answer))
    ensures LeavesShifted(FourByte, m, if o.answer.Matched? then passed + 1 else 0, SearchShift(r, m, refills), o.m)
    ensures o.answer.Matched? || o.answer.Failed?
  {
    var moved := Shifted(LogOf(FourByte, m), SearchDrift(r, m, refills));
    FourByteState.SearchOnlyMatches(r, m, refills);
    var used := SearchLeaves(r, m, refills);
    if o.answer.Matched? {
      passed := used - 1;
      SettledTells(r, moved, m.Remaining(), passed, o.answer);
    } else {
      SearchLaw(r, m, refills, o.answer);
      SearchingIsStable(r, FourByte);
      RetryIsOneAttempt(Searching(r, FourByte), m, refills);
      passed := FailureTells(r, moved, m.Remaining(), o.answer);
    }
  }

  lemma SearchForwards(r: Request, enc: Encoding, m: Machine, refills: nat, o: Outcome)
    requires m.Valid() && o == Retry(Searching(r, enc), m, refills) && o.Done? && !o.Genuine()
    ensures LeavesShifted(enc, m, 0, ShiftBy(r, enc, m, refills), o.m)
  {
    if enc.FourByte? {
      FourByteState.SearchOnlyMatches(r, m, refills);
      var used := SearchLeaves(r, m, refills);
    } else {
      var i := SearchConsumes(r, m, refills);
      assert LogOf(enc, m).events[0..] == LogOf(enc, m).events;
      NoShift(EightByte, m, 0, o.m);
    }
  }

  lemma SearchReturns(f: Decoder, r: Request, enc: Encoding, m: Machine, refills: nat, o: Outcome)
    returns (passed: nat)
    requires m.Valid() && Searches(f, r, enc) && o == Retry(f, m, refills) && o.Done?
    ensures SearchTells(r, enc, m, o.m, DriftOf(r, enc, m, refills), ShiftBy(r, enc, m, refills), MatchOf(o.answer),
                        passed)
  {
    var g := Searching(r, enc);
    forall base, window ensures f(base, window) == g(base, window) {
      assert g(base, window) == Scan(r, enc, base, window);
    }
    RetrySame(f, g, m, refills);
    SearchingIsStable(r, enc);
    RetryAsks(g, m, refills, o);
    passed := 0;
    if !o.Genuine() {
      SearchForwards(r, enc, m, refills, o);
    } else if enc.FourByte? {
      passed := FourByteReturns(r, m, refills, o);
    } else {
      ShiftedByZero(LogOf(enc, m).events);
      passed := EightByteReturns(r, m, refills, o);
    }
  }

  // ----- The constructor -----

  /** The constructor over a stream fails: with the error of the planned read that broke, or else with the one
      the stream's first bytes call for. */
  predicate FailureToOpen(before: Feed, after: Feed, error: Error) {
    if error.SourceError? then Asked(before, after, Some(error.code))
    else Asked(before, after, None) && error != IncompleteIr && PreambleTells(before.rest, Failed(error), 0)
  }

  /** The constructor over a stream succeeds: no planned read has broken, the stream begins with a preamble that
      says what the new reader knows, and what lies behind it is left. */
  predicate SuccessToOpen(before: Feed, n: Machine, answer: Answer) {
    && Asked(before, n.feed, None)
    && answer.Opened? && PreambleTells(before.rest, answer, n.timestamp)
    && answer.pos <= |before.rest| && n.Remaining() == before.rest[answer.pos..]
  }

  lemma BuiltReturns(f: Decoder, size: nat, feed: Feed, refills: nat)
    requires Opens(f) && Construct(f, size, feed, refills).Done?
    ensures var o := Construct(f, size, feed, refills);
            && (if o.answer.Failed? then FailureToOpen(feed, o.m.feed, o.answer.error)
                else SuccessToOpen(feed, o.m, o.answer))
            && (feed.plan != [] && feed.plan[0].status.Broken? ==>
                  o.answer == Failed(SourceError(feed.plan[0].status.code)))
  {
    var g := Opening();
    forall base, window ensures f(base, window) == g(base, window) {
      assert g(base, window) == AttemptOpen(base, window);
    }
    var d := Deliver(feed, size);
    RetrySame(f, g, Machine(0, d.data, size, d.feed), refills);
    OpeningIsStable();
    ConstructAsks(g, size, feed, refills);
    var o := Construct(g, size, feed, refills);
    BuiltConserves(size, feed, refills);
    if o.Genuine() {
      ConstructRefines(size, feed, refills);
      OpenTells(0, feed.rest);
      BuiltComplete(size, feed, refills);
    }
  }

  lemma BuiltComplete(size: nat, feed: Feed, refills: nat)
    requires Construct(Opening(), size, feed, refills).Genuine()
    ensures Construct(Opening(), size, feed, refills).answer != Failed(IncompleteIr)
  {
    var d := Deliver(feed, size);
    OpeningIsStable();
    RetryIsOneAttempt(Opening(), Machine(0, d.data, size, d.feed), refills);
  }

  lemma BuiltConserves(size: nat, feed: Feed, refills: nat)
    requires Construct(Opening(), size, feed, refills).Done?
    ensures var o := Construct(Opening(), size, feed, refills);
            !o.Genuine() ==> o.m.Remaining() == feed.rest && o.answer.Failed?
  {
    var d := Deliver(feed, size);
    DeliverConserves(feed, size);
    if !d.status.Broken? {
      RetryConserves(Opening(), Machine(0, d.data, size, d.feed), refills);
      assert feed.rest[0..] == feed.rest;
    }
  }
}
