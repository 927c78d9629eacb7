/**
 What a four-byte search leaves to later calls: the bytes a match has not used, and the remaining log with
 every timestamp in it moved by what the attempts have walked in vain.
 */
module FourByteState {
  import opened Base
  import opened FrameCodec
  import opened WholeStream
  import opened WildcardQuery
  import opened TimedSearch
  import opened RetryLoop
  import opened DecodingCalls
  import opened ReaderRuns
  import opened FourByteSearch

  /** The differences walked by the attempts, and not used up by a match. */
  function SearchShift(r: Request, m: Machine, refills: nat): int
    requires m.Valid()
  {
    var f := Searching(r, FourByte);
    SearchDrift(r, m, refills)
    + if Retry(f, m, refills).Used() > 0 then 0
      else WalkedSum(r, FinalBase(f, m, refills), FinalWindow(f, m, refills))
  }

  lemma MatchUsesBytes(r: Request, base: Int64, s: Bytes)
    ensures var answer := Scan(r, FourByte, base, s).answer;
            if answer.Matched? then answer.pos > 0 else answer.Failed? && answer.Used() == 0
  {
  }

  lemma {:induction false} SearchOnlyMatches(r: Request, m: Machine, refills: nat)
    requires m.Valid()
    ensures var o := Retry(Searching(r, FourByte), m, refills);
            o.Done? ==> (if o.answer.Matched? then o.Genuine() && o.Used() > 0 else o.answer.Failed? && o.Used() == 0)
    decreases refills
  {
    var f := Searching(r, FourByte);
    MatchUsesBytes(r, m.timestamp, m.window);
    if GoesOn(f, m, refills) {
      SearchOnlyMatches(r, Next(f, m), refills - 1);
    }
  }

  /** What the last attempt of a loop walks, it adds. */
  lemma LastWalk(r: Request, base: Int64, window: Bytes)
    ensures MovedBy(base, WalkedSum(r, base, window), Searching(r, FourByte)(base, window).timestamp)
  {
    ScanAddsWalked(r, base, window);
  }

  lemma FailureShift(r: Request, m: Machine, refills: nat)
    requires m.Valid() && Retry(Searching(r, FourByte), m, refills).Used() == 0
    ensures SearchShift(r, m, refills)
            == Drift(Searching(r, FourByte), DeltaSum, m, refills)
             + WalkedSum(r, FinalBase(Searching(r, FourByte), m, refills),
                         FinalWindow(Searching(r, FourByte), m, refills))
  {
  }

  /** A search that uses no bytes has moved the timestamp by its shift. */
  lemma FailureMoves(r: Request, m: Machine, refills: nat)
    requires m.Valid() && Retry(Searching(r, FourByte), m, refills).Used() == 0
    ensures MovedBy(m.timestamp, SearchShift(r, m, refills), Retry(Searching(r, FourByte), m, refills).m.timestamp)
  {
    var f := Searching(r, FourByte);
    var base, window := FinalBase(f, m, refills), FinalWindow(f, m, refills);
    FourByteSearchAccumulates(r);
    LastWalk(r, base, window);
    LastAdds(f, DeltaSum, m, refills, WalkedSum(r, base, window));
    FailureShift(r, m, refills);
  }

  /** Dropping a match's bytes leaves the log behind its event, as the scan stamped it. */
  lemma DropMatch(r: Request, base: Int64, s: Bytes) returns (passed: nat)
    requires Scan(r, FourByte, base, s).answer.Matched?
    ensures var log, t := Decode(FourByte, base, s), Scan(r, FourByte, base, s);
            && 0 < passed <= |log.events| && Settles(r, log, s, passed - 1, t.answer)
            && s[t.answer.pos..] == Skip(s, passed)
            && Decode(FourByte, t.timestamp, s[t.answer.pos..]) == Log(log.events[passed..], log.ending)
  {
    var log, t := Decode(FourByte, base, s), Scan(r, FourByte, base, s);
    ScanIsSearch(r, FourByte, base, s);
    MatchLeavesItsTimestamp(r, FourByte, base, s);
    var i: nat :| i < |log.events| && Settles(r, log, s, i, t.answer);
    passed := i + 1;
    SkipIsSuffix(s, passed);
    DecodeResumes(FourByte, base, s, passed);
  }

  /** The same, told from a timestamp `shift` before the scan's. */
  lemma DropShiftedMatch(r: Request, start: Int64, shift: int, base: Int64, s: Bytes) returns (passed: nat)
    requires MovedBy(start, shift, base) && Scan(r, FourByte, base, s).answer.Matched?
    ensures var log, t := Decode(FourByte, start, s), Scan(r, FourByte, base, s);
            && 0 < passed <= |log.events| && Settles(r, Shifted(log, shift), s, passed - 1, t.answer)
            && s[t.answer.pos..] == Skip(s, passed)
            && Decode(FourByte, t.timestamp, s[t.answer.pos..]) == Shifted(Log(log.events[passed..], log.ending), shift)
  {
    ShiftedDecode(start, shift, s);
    passed := DropMatch(r, base, s);
    ShiftedRest(Decode(FourByte, start, s), shift, passed);
  }

  /** `now` is left of a machine once its first `passed` events have been consumed and every timestamp behind
      them moved by `shift`. */
  predicate LeavesShifted(enc: Encoding, m: Machine, passed: nat, shift: int, now: Machine) {
    var log := LogOf(enc, m);
    && passed <= |log.events|
    && now.Remaining() == Skip(m.Remaining(), passed)
    && LogOf(enc, now) == Shifted(Log(log.events[passed..], log.ending), shift)
  }

  /** A search that uses no bytes leaves the whole log, shifted. */
  lemma FailureLeaves(r: Request, m: Machine, refills: nat)
    requires m.Valid() && Retry(Searching(r, FourByte), m, refills).Used() == 0
    ensures var o := Retry(Searching(r, FourByte), m, refills);
            && o.m.Remaining() == m.Remaining()
            && LogOf(FourByte, o.m) == Shifted(LogOf(FourByte, m), SearchShift(r, m, refills))
            && LeavesShifted(FourByte, m, 0, SearchShift(r, m, refills), o.m)
  {
    var log, all := LogOf(FourByte, m), m.Remaining();
    RetryConserves(Searching(r, FourByte), m, refills);
    assert all[0..] == all && log.events[0..] == log.events;
    FailureMoves(r, m, refills);
    ShiftedDecode(m.timestamp, SearchShift(r, m, refills), all);
  }

  /** A match is the match of one scan of all that was left, from the timestamp moved by the shift. */
  lemma MatchIsOneScan(r: Request, m: Machine, refills: nat) returns (base: Int64)
    requires m.Valid() && Retry(Searching(r, FourByte), m, refills).Genuine()
    requires Retry(Searching(r, FourByte), m, refills).answer.Matched?
    ensures var o := Retry(Searching(r, FourByte), m, refills);
            && MovedBy(m.timestamp, SearchShift(r, m, refills), base)
            && Try(o.answer, o.m.timestamp) == Scan(r, FourByte, base, m.Remaining())
            && o.answer.pos <= |m.Remaining()| && o.m.Remaining() == m.Remaining()[o.answer.pos..]
  {
    var f := Searching(r, FourByte);
    base := FinalBase(f, m, refills);
    SearchOnlyMatches(r, m, refills);
    SearchingIsStable(r, FourByte);
    FourByteSearchAccumulates(r);
    RetryIsOneAttempt(f, m, refills);
    RetryConserves(f, m, refills);
    DriftLaw(f, DeltaSum, m, refills);
  }

  /** The state law, for every outcome, source errors and unfinished loops included: a match consumes the log
      through its event, every other outcome nothing, and the timestamps of what is left have moved by the
      shift. */
  lemma SearchLeaves(r: Request, m: Machine, refills: nat) returns (passed: nat)
    requires m.Valid()
    ensures var o := Retry(Searching(r, FourByte), m, refills);
            && LeavesShifted(FourByte, m, passed, SearchShift(r, m, refills), o.m)
            && (passed > 0 <==> o.Done? && o.answer.Matched?)
            && (passed > 0 ==>
                  Settles(r, Shifted(LogOf(FourByte, m), SearchShift(r, m, refills)), m.Remaining(), passed - 1,
                          o.answer))
  {
    var o, shift := Retry(Searching(r, FourByte), m, refills), SearchShift(r, m, refills);
    SearchOnlyMatches(r, m, refills);
    if o.Done? && o.answer.Matched? {
      var base := MatchIsOneScan(r, m, refills);
      passed := DropShiftedMatch(r, m.timestamp, shift, base, m.Remaining());
    } else {
      passed := 0;
      FailureLeaves(r, m, refills);
    }
  }

  // ----- Later searches -----

  /** SearchLaw, for a log known by another name. */
  lemma SearchLawOn(r: Request, n: Machine, refills: nat, drift: int, log: Log, s: Bytes, answer: Answer)
    requires n.Valid() && Retry(Searching(r, FourByte), n, refills).Genuine()
    requires drift == SearchDrift(r, n, refills) && log == Shifted(LogOf(FourByte, n), drift) && s == n.Remaining()
    ensures Retry(Searching(r, FourByte), n, refills).answer == answer <==> IsSearchOf(r, log, s, answer)
  {
    SearchLaw(r, n, refills, answer);
  }

  /** A search that its window settles answers at once, without drift, whatever refills it is allowed. */
  lemma SettledSearch(r: Request, n: Machine, later: nat)
    requires n.Valid() && !Scan(r, FourByte, n.timestamp, n.window).Incomplete()
    ensures var o, t := Retry(Searching(r, FourByte), n, later), Scan(r, FourByte, n.timestamp, n.window);
            && o.Genuine() && o.answer == t.answer
            && t == Scan(r, FourByte, n.timestamp, n.Remaining())
            && o.m == Consumed(Stamped(n, t.timestamp), t.answer)
    ensures SearchDrift(r, n, later) == 0
  {
    SearchingIsStable(r, FourByte);
    ScanStable(r, FourByte, n.timestamp, n.window, n.feed.rest);
  }

  /** A failure, of any kind, is repeated by the same search exactly if the log the first one found, moved by
      that search's shift, calls for it: told before the call, if the window left settles the search from the
      timestamp left. */
  lemma FailureRepeatsIff(r: Request, m: Machine, refills: nat, answer: Answer, n: Machine, later: nat, moved: Log)
    requires m.Valid() && n.Valid() && answer.Failed? && Retry(Searching(r, FourByte), m, refills) == Done(answer, n)
    requires !Scan(r, FourByte, n.timestamp, n.window).Incomplete()
    requires moved == Shifted(LogOf(FourByte, m), SearchShift(r, m, refills))
    ensures Retry(Searching(r, FourByte), n, later).Genuine()
    ensures n.Remaining() == m.Remaining() && LogOf(FourByte, n) == moved
    ensures Retry(Searching(r, FourByte), n, later).answer == answer <==> IsSearchOf(r, moved, m.Remaining(), answer)
  {
    FailureLeaves(r, m, refills);
    SettledSearch(r, n, later);
    ShiftedByZero(moved.events);
    SearchLawOn(r, n, later, 0, moved, m.Remaining(), answer);
  }

  lemma MovedTwice(log: Log, shift: int, left: Log, drift: int, moved: Log)
    requires left == Shifted(log, shift) && moved == Shifted(log, shift + drift)
    ensures moved == Shifted(left, drift)
  {
    ShiftedAdds(log, shift, drift);
  }

  /** If the second search has to wait for bytes as well, its own drift comes on top. */
  lemma FailureRepeatsBehindRefillsIff(
    r: Request, m: Machine, refills: nat, answer: Answer, n: Machine, later: nat, shift: int, drift: int, moved: Log)
    requires m.Valid() && n.Valid() && answer.Failed? && Retry(Searching(r, FourByte), m, refills) == Done(answer, n)
    requires Retry(Searching(r, FourByte), n, later).Genuine()
    requires shift == SearchShift(r, m, refills) && drift == SearchDrift(r, n, later)
    requires moved == Shifted(LogOf(FourByte, m), shift + drift)
    ensures Retry(Searching(r, FourByte), n, later).answer == answer <==> IsSearchOf(r, moved, m.Remaining(), answer)
  {
    FailureLeaves(r, m, refills);
    MovedTwice(LogOf(FourByte, m), shift, LogOf(FourByte, n), drift, moved);
    SearchLawOn(r, n, later, drift, moved, m.Remaining(), answer);
  }

  /** A scan that gives up leaves a late timestamp, and has a frame in front. */
  lemma {:induction false} NotFoundIsLate(r: Request, base: Int64, s: Bytes)
    requires Scan(r, FourByte, base, s).answer == Failed(QueryNotFound)
    ensures r.interval.upper <= Scan(r, FourByte, base, s).timestamp && Parse(s).Frame?
    decreases |s|
  {
    var frame := Parse(s);
    var event := Event(frame.message, Advance(base, frame.field));
    ScanStep(r, FourByte, base, s, event, frame.size);
    if !r.Late(event) && !r.Hit(event) {
      NotFoundIsLate(r, event.timestamp, s[frame.size..]);
    }
  }

  /** The first frame left is late again: the search gives up on it. */
  lemma LateAgain(r: Request, base: Int64, s: Bytes)
    requires Parse(s).Frame? && r.interval.upper <= Advance(base, Parse(s).field)
    ensures Scan(r, FourByte, base, s) == Try(Failed(QueryNotFound), Advance(base, Parse(s).field))
  {
  }

  /** QueryNotFound is repeated at once, whatever the chunks, if time does not go back over the first event left
      and the addition stays in range. */
  lemma NotFoundRepeats(r: Request, m: Machine, refills: nat, n: Machine, later: nat)
    requires m.Valid() && n.Valid()
    requires Retry(Searching(r, FourByte), m, refills) == Done(Failed(QueryNotFound), n)
    requires Parse(n.Remaining()).Frame? ==> 0 <= Parse(n.Remaining()).field <= MAX_INT64 - n.timestamp
    ensures Parse(n.Remaining()).Frame?
    ensures Retry(Searching(r, FourByte), n, later)
            == Done(Failed(QueryNotFound), Stamped(n, n.timestamp + Parse(n.Remaining()).field))
  {
    var f := Searching(r, FourByte);
    var base, window := FinalBase(f, m, refills), FinalWindow(f, m, refills);
    LastAttempt(f, m, refills);
    NotFoundIsLate(r, base, window);
    ParseStable(n.window, n.feed.rest);
    LateAgain(r, n.timestamp, n.window);
    SettledSearch(r, n, later);
  }

  predicate AtEnd(answer: Answer) {
    answer == Failed(EndOfIr) || answer == Failed(CorruptedIr)
  }

  /** A scan that comes to the end has walked every frame, and any base comes to an answer on its bytes. */
  lemma {:induction false} EndWalksAll(r: Request, base: Int64, s: Bytes, more: Bytes)
    requires AtEnd(Scan(r, FourByte, base, s).answer)
    ensures WalkedSum(r, base, s) == DeltaSum(s) == DeltaSum(s + more)
    ensures !Decode(FourByte, base, s).ending.Truncated?
    decreases |s|
  {
    var frame := Parse(s);
    ParseStable(s, more);
    if frame.Frame? {
      var event, tail := Event(frame.message, Advance(base, frame.field)), s[frame.size..];
      ScanStep(r, FourByte, base, s, event, frame.size);
      assert (s + more)[frame.size..] == tail + more;
      EndWalksAll(r, event.timestamp, tail, more);
    }
  }

  lemma EndSettlesAll(r: Request, base: Int64, other: Int64, s: Bytes)
    requires !Decode(FourByte, base, s).ending.Truncated?
    ensures !Scan(r, FourByte, other, s).Incomplete()
  {
    EndingIgnoresBase(FourByte, base, other, s);
    ScanIsSearch(r, FourByte, other, s);
  }

  /** A search that has come to the end of the stream, or to a corrupt frame, repeats its outcome exactly when
      the differences of all frames left sum to zero modulo 2^64. */
  lemma EndRepeatsIff(r: Request, m: Machine, refills: nat, later: nat)
    requires m.Valid() && Retry(Searching(r, FourByte), m, refills).Genuine()
    requires AtEnd(Retry(Searching(r, FourByte), m, refills).answer)
    ensures Retry(Searching(r, FourByte), Retry(Searching(r, FourByte), m, refills).m, later)
            == Retry(Searching(r, FourByte), m, refills)
            <==> Wrap64(DeltaSum(m.Remaining())) == 0
  {
    var f := Searching(r, FourByte);
    var o, base, window := Retry(f, m, refills), FinalBase(f, m, refills), FinalWindow(f, m, refills);
    var left := o.m.timestamp;
    LastAttempt(f, m, refills);
    assert m.Remaining() == window + m.Remaining()[|window|..];
    EndWalksAll(r, base, window, m.Remaining()[|window|..]);
    EndSettlesAll(r, base, left, window);
    ScanAddsWalked(r, base, window);
    ShiftVanishesIff(base, DeltaSum(window), left);
    var t := f(left, window);
    assert Retry(f, o.m, later) == Done(t.answer, Consumed(Stamped(o.m, t.timestamp), t.answer));
    if Retry(f, o.m, later) == o {
      AnswerPinsBase(r, base, left, window);
    }
  }

  /** The answer alone, at the end of a stream or at a corrupt frame, is repeated exactly if no event of the log
      left, every timestamp moved by the first search's shift, is a hit or late. */
  lemma EndAnswerRepeatsIff(
    r: Request, m: Machine, refills: nat, answer: Answer, n: Machine, later: nat, moved: Log)
    requires m.Valid() && n.Valid() && AtEnd(answer) && Retry(Searching(r, FourByte), m, refills) == Done(answer, n)
    requires moved == Shifted(LogOf(FourByte, m), SearchShift(r, m, refills))
    ensures Retry(Searching(r, FourByte), n, later).Genuine()
    ensures Retry(Searching(r, FourByte), n, later).answer == answer <==> Passed(r, moved.events, |moved.events|)
  {
    var f := Searching(r, FourByte);
    var base, window := FinalBase(f, m, refills), FinalWindow(f, m, refills);
    LastAttempt(f, m, refills);
    EndWalksAll(r, base, window, []);
    EndSettlesAll(r, base, n.timestamp, window);
    FailureRepeatsIff(r, m, refills, answer, n, later, moved);
    EndIsEnding(r, m, refills, answer);
    EndSearchIff(r, moved, m.Remaining(), answer);
  }

  /** A search comes to the end its log has. */
  lemma EndIsEnding(r: Request, m: Machine, refills: nat, answer: Answer)
    requires m.Valid() && AtEnd(answer) && Retry(Searching(r, FourByte), m, refills).Genuine()
    requires Retry(Searching(r, FourByte), m, refills).answer == answer
    ensures answer == Failed(EndingError(LogOf(FourByte, m).ending))
  {
    var f := Searching(r, FourByte);
    SearchingIsStable(r, FourByte);
    RetryIsOneAttempt(f, m, refills);
    ScanIsSearch(r, FourByte, FinalBase(f, m, refills), m.Remaining());
    EndingIgnoresBase(FourByte, FinalBase(f, m, refills), m.timestamp, m.Remaining());
  }

  lemma EndSearchIff(r: Request, log: Log, s: Bytes, answer: Answer)
    requires AtEnd(answer) && answer == Failed(EndingError(log.ending))
    ensures IsSearchOf(r, log, s, answer) <==> Passed(r, log.events, |log.events|)
  {
  }

  // ----- When nothing is felt -----

  /** What a four-byte search leaves is the log as it was, less what a match used, exactly if nothing is left or
      its shift is zero modulo 2^64. */
  lemma LeavesLogIff(r: Request, m: Machine, refills: nat) returns (passed: nat)
    requires m.Valid()
    ensures var o, log := Retry(Searching(r, FourByte), m, refills), LogOf(FourByte, m);
            && passed <= |log.events|
            && (passed > 0 <==> o.Done? && o.answer.Matched?)
            && (LogOf(FourByte, o.m) == Log(log.events[passed..], log.ending)
                <==> passed == |log.events| || Wrap64(SearchShift(r, m, refills)) == 0)
  {
    passed := SearchLeaves(r, m, refills);
    var log := LogOf(FourByte, m);
    ShiftedSameIff(Log(log.events[passed..], log.ending), SearchShift(r, m, refills));
  }

  // ----- Inputs on which a failed search is felt -----

  /** One event, `gap` after the base, and the end of the stream, all in the window. */
  function OneEvent(a: Bytes, gap: Int64): (m: Machine)
    requires Printable(a)
    ensures m.Valid()
  {
    Machine(0, Print(gap, a) + [EOF_TAG], |Print(gap, a)| + 1, Feed([], []))
  }

  /** Looking for the message `b` before two gaps have passed. */
  function WantsSoon(b: Bytes, gap: Int64): Request
    requires 0 < gap && 2 * gap <= MAX_INT64
  {
    Request([Query(b, true)], Interval(0, 2 * gap), (message, text, caseSensitive) => message == text)
  }

  lemma OneEventScans(r: Request, base: Int64, a: Bytes, gap: Int64)
    requires Printable(a)
    ensures var stamp := Advance(base, gap);
            Scan(r, FourByte, base, Print(gap, a) + [EOF_TAG])
            == Behind(r, Event(a, stamp), |Print(gap, a)|, Try(Failed(EndOfIr), stamp))
  {
    ScanPrinted(r, base, gap, a, [EOF_TAG]);
  }

  /** With no refill at all: the first search comes to the end, the same search again answers QueryNotFound,
      and a read behind the first search stamps the event two gaps after the base. */
  lemma FailureIsFelt(a: Bytes, b: Bytes, gap: Int64)
    requires Printable(a) && 0 < gap && 2 * gap <= MAX_INT64 && a != b
    ensures var f, m := Searching(WantsSoon(b, gap), FourByte), OneEvent(a, gap);
            var n := m.(timestamp := gap);
            && Retry(f, m, 0) == Done(Failed(EndOfIr), n)
            && Retry(f, n, 0) == Done(Failed(QueryNotFound), m.(timestamp := 2 * gap))
            && LogOf(FourByte, m).events == [Event(a, gap)]
            && LogOf(FourByte, n).events == [Event(a, 2 * gap)]
  {
    var r, m := WantsSoon(b, gap), OneEvent(a, gap);
    OneEventScans(r, 0, a, gap);
    OneEventScans(r, gap, a, gap);
    OneEventDecodes(0, a, gap);
    OneEventDecodes(gap, a, gap);
    assert m.window + [] == m.window;
    assert !r.Accepts(a);
  }

  lemma OneEventDecodes(base: Int64, a: Bytes, gap: Int64)
    requires Printable(a)
    ensures Decode(FourByte, base, Print(gap, a) + [EOF_TAG]) == Log([Event(a, Advance(base, gap))], Terminated)
  {
    ParsePrint(gap, a, [EOF_TAG]);
    assert (Print(gap, a) + [EOF_TAG])[|Print(gap, a)|..] == [EOF_TAG];
  }
}
