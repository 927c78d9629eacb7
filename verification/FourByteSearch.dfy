/**
 Searches of four-byte streams. A failed attempt keeps the timestamp of the events it walked but not the
 position, and the retry walks them again: this module says exactly what that does to the answer.
 */
module FourByteSearch {
  import opened Base
  import opened FrameCodec
  import opened WholeStream
  import opened WildcardQuery
  import opened TimedSearch
  import opened RetryLoop
  import opened DecodingCalls
  import opened ReaderRuns

  /** The differences in the windows of the attempts that ran out of bytes and were retried, summed once
      per attempt. */
  function SearchDrift(r: Request, m: Machine, refills: nat): int
    requires m.Valid()
  {
    Drift(Searching(r, FourByte), DeltaSum, m, refills)
  }

  /** A scan from a base that is off by `shift` is the search of the shifted log. */
  lemma ShiftedSearch(r: Request, base: Int64, shift: int, moved: Int64, s: Bytes, answer: Answer)
    requires MovedBy(base, shift, moved)
    ensures Scan(r, FourByte, moved, s).answer == answer
            <==> IsSearchOf(r, Shifted(Decode(FourByte, base, s), shift), s, answer)
  {
    ShiftedDecode(base, shift, s);
    ScanIffSearch(r, FourByte, moved, s, answer);
  }

  /** The exact law, with no side condition: the search answers exactly what the search of the whole
      remaining log would if every timestamp in it were moved by the drift. */
  lemma SearchLaw(r: Request, m: Machine, refills: nat, answer: Answer)
    requires m.Valid() && Retry(Searching(r, FourByte), m, refills).Genuine()
    ensures Retry(Searching(r, FourByte), m, refills).answer == answer
            <==> IsSearchOf(r, Shifted(LogOf(FourByte, m), SearchDrift(r, m, refills)), m.Remaining(), answer)
  {
    var f := Searching(r, FourByte);
    SearchingIsStable(r, FourByte);
    FourByteSearchAccumulates(r);
    RetryIsOneAttempt(f, m, refills);
    DriftLaw(f, DeltaSum, m, refills);
    ShiftedSearch(r, m.timestamp, SearchDrift(r, m, refills), FinalBase(f, m, refills), m.Remaining(), answer);
  }

  /** The retried search is the search of the whole remaining stream in every respect: the answer, the
      timestamp it leaves and the number of events walked. */
  predicate Transparent(r: Request, m: Machine, refills: nat)
    requires m.Valid()
  {
    var f, all := Searching(r, FourByte), m.Remaining();
    var o, base := Retry(f, m, refills), FinalBase(f, m, refills);
    && o.Done? && Try(o.answer, o.m.timestamp) == Scan(r, FourByte, m.timestamp, all)
    && Walked(r, FourByte, base, all) == Walked(r, FourByte, m.timestamp, all)
  }

  /** Refills cannot be seen exactly when the drift is zero modulo 2^64. */
  lemma TransparentIff(r: Request, m: Machine, refills: nat)
    requires m.Valid() && Retry(Searching(r, FourByte), m, refills).Genuine()
    ensures Transparent(r, m, refills) <==> Wrap64(SearchDrift(r, m, refills)) == 0
  {
    BaseIsKeptIff(r, m, refills);
    if Transparent(r, m, refills) {
      AnswerPinsBase(r, FinalBase(Searching(r, FourByte), m, refills), m.timestamp, m.Remaining());
    }
  }

  /** For a match, or an end of stream with the timestamp it leaves, the answer alone tells. */
  lemma AnswerTellsIff(r: Request, m: Machine, refills: nat)
    requires m.Valid() && Retry(Searching(r, FourByte), m, refills).Genuine()
    requires var answer := Retry(Searching(r, FourByte), m, refills).answer;
             answer.Matched? || answer == Failed(EndOfIr)
    ensures var o := Retry(Searching(r, FourByte), m, refills);
            Try(o.answer, o.m.timestamp) == Scan(r, FourByte, m.timestamp, m.Remaining())
            <==> Wrap64(SearchDrift(r, m, refills)) == 0
  {
    var o := Retry(Searching(r, FourByte), m, refills);
    BaseIsKeptIff(r, m, refills);
    if Try(o.answer, o.m.timestamp) == Scan(r, FourByte, m.timestamp, m.Remaining()) {
      AnswerPinsBase(r, FinalBase(Searching(r, FourByte), m, refills), m.timestamp, m.Remaining());
    }
  }

  lemma BaseIsKeptIff(r: Request, m: Machine, refills: nat)
    requires m.Valid() && Retry(Searching(r, FourByte), m, refills).Genuine()
    ensures var o, f := Retry(Searching(r, FourByte), m, refills), Searching(r, FourByte);
            && Try(o.answer, o.m.timestamp) == Scan(r, FourByte, FinalBase(f, m, refills), m.Remaining())
            && (FinalBase(f, m, refills) == m.timestamp <==> Wrap64(SearchDrift(r, m, refills)) == 0)
  {
    var f := Searching(r, FourByte);
    SearchingIsStable(r, FourByte);
    FourByteSearchAccumulates(r);
    RetryIsOneAttempt(f, m, refills);
    DriftLaw(f, DeltaSum, m, refills);
    ShiftVanishesIff(m.timestamp, SearchDrift(r, m, refills), FinalBase(f, m, refills));
  }

  /** Every retried attempt walked differences that sum to zero. */
  predicate Balanced(r: Request, m: Machine, refills: nat)
    requires m.Valid()
    decreases refills
  {
    var f := Searching(r, FourByte);
    GoesOn(f, m, refills) ==> Wrap64(DeltaSum(m.window)) == 0 && Balanced(r, Next(f, m), refills - 1)
  }

  /** No failed attempt moves the timestamp exactly when every walked sum is zero modulo 2^64. */
  lemma {:induction false} SteadyIffBalanced(r: Request, m: Machine, refills: nat)
    requires m.Valid()
    ensures Steady(Searching(r, FourByte), m, refills) <==> Balanced(r, m, refills)
    decreases refills
  {
    var f := Searching(r, FourByte);
    if GoesOn(f, m, refills) {
      IncompleteScanAddsDeltas(r, m.timestamp, m.window);
      ShiftVanishesIff(m.timestamp, DeltaSum(m.window), f(m.timestamp, m.window).timestamp);
      SteadyIffBalanced(r, Next(f, m), refills - 1);
    }
  }

  /** With balanced attempts, none at all included, the search answers what the remaining log calls for. */
  lemma BalancedSearchRefines(r: Request, m: Machine, refills: nat, answer: Answer)
    requires m.Valid() && Retry(Searching(r, FourByte), m, refills).Genuine() && Balanced(r, m, refills)
    ensures Retry(Searching(r, FourByte), m, refills).answer == answer
            <==> IsSearchOf(r, LogOf(FourByte, m), m.Remaining(), answer)
  {
    SteadyIffBalanced(r, m, refills);
    SteadyKeepsBase(Searching(r, FourByte), m, refills);
    SearchingIsStable(r, FourByte);
    RetryIsOneAttempt(Searching(r, FourByte), m, refills);
    ScanIffSearch(r, FourByte, m.timestamp, m.Remaining(), answer);
  }

  // ----- Inputs on which refills are seen -----

  /** Two events `gap` apart, the first one `gap` after the base, and the end of the stream. */
  function TwoEvents(a: Bytes, b: Bytes, gap: Int64): Bytes
    requires Printable(a) && Printable(b)
  {
    Print(gap, a) + (Print(gap, b) + [EOF_TAG])
  }

  /** Looking for the message `b` before three gaps have passed. */
  function Wants(b: Bytes, gap: Int64): Request
    requires 0 < gap && 3 * gap <= MAX_INT64
  {
    Request([Query(b, true)], Interval(0, 3 * gap), (message, text, caseSensitive) => message == text)
  }

  /** The first event fills the window, the rest of the stream arrives with the first refill. */
  function FirstInWindow(a: Bytes, b: Bytes, gap: Int64): (m: Machine)
    requires Printable(a) && Printable(b)
    ensures m.Valid() && m.Remaining() == TwoEvents(a, b, gap)
  {
    var first, rest := Print(gap, a), Print(gap, b) + [EOF_TAG];
    Machine(0, first, |first| + |rest|, Feed(rest, [Step(|rest|, Fine)]))
  }

  /** A scan meets a printed frame, then goes on behind it. */
  lemma ScanPrinted(r: Request, base: Int64, field: Int64, message: Bytes, rest: Bytes)
    requires Printable(message)
    ensures var event := Event(message, Advance(base, field));
            Scan(r, FourByte, base, Print(field, message) + rest)
            == Behind(r, event, |Print(field, message)|, Scan(r, FourByte, event.timestamp, rest))
  {
    ParsePrint(field, message, rest);
    assert (Print(field, message) + rest)[|Print(field, message)|..] == rest;
    ScanStep(r, FourByte, base, Print(field, message) + rest, Event(message, Advance(base, field)),
             |Print(field, message)|);
  }

  lemma WantsOnlyB(a: Bytes, b: Bytes, gap: Int64)
    requires 0 < gap && 3 * gap <= MAX_INT64 && a != b
    ensures var r := Wants(b, gap);
            && !r.Hit(Event(a, gap)) && !r.Hit(Event(a, 2 * gap)) && r.Hit(Event(b, 2 * gap))
            && !r.Late(Event(a, gap)) && !r.Late(Event(a, 2 * gap)) && r.Late(Event(b, 3 * gap))
            && r.FirstMatch(b, 0) == 0
  {
    var r := Wants(b, gap);
    assert r.matches(b, r.queries[0].text, r.queries[0].caseSensitive);
  }

  /** What a scan makes of the two events. */
  function BothBehind(r: Request, base: Int64, a: Bytes, b: Bytes, gap: Int64): Try
    requires Printable(a) && Printable(b)
  {
    var first, second := Advance(base, gap), Advance(Advance(base, gap), gap);
    Behind(r, Event(a, first), |Print(gap, a)|,
           Behind(r, Event(b, second), |Print(gap, b)|, Try(Failed(EndOfIr), second)))
  }

  lemma ScanTwoEvents(r: Request, base: Int64, a: Bytes, b: Bytes, gap: Int64)
    requires Printable(a) && Printable(b)
    ensures Scan(r, FourByte, base, TwoEvents(a, b, gap)) == BothBehind(r, base, a, b, gap)
  {
    ScanPrinted(r, base, gap, a, Print(gap, b) + [EOF_TAG]);
    ScanPrinted(r, Advance(base, gap), gap, b, [EOF_TAG]);
  }

  /** From base 0 the second event is a match; from base `gap` it is late. */
  lemma BothBases(a: Bytes, b: Bytes, gap: Int64)
    requires Printable(a) && Printable(b) && 0 < gap && 3 * gap <= MAX_INT64 && a != b
    ensures BothBehind(Wants(b, gap), 0, a, b, gap).answer
            == Matched(Event(b, 2 * gap), |Print(gap, a)| + |Print(gap, b)|, 0)
    ensures BothBehind(Wants(b, gap), gap, a, b, gap).answer == Failed(QueryNotFound)
  {
    WantsOnlyB(a, b, gap);
  }

  /** The attempt on the first event alone leaves timestamp `gap`. */
  lemma FirstAttemptAdvances(a: Bytes, b: Bytes, gap: Int64)
    requires Printable(a) && 0 < gap && 3 * gap <= MAX_INT64 && a != b
    ensures Scan(Wants(b, gap), FourByte, 0, Print(gap, a)) == Try(Failed(IncompleteIr), gap)
  {
    WantsOnlyB(a, b, gap);
    ScanPrinted(Wants(b, gap), 0, gap, a, []);
    assert Print(gap, a) + [] == Print(gap, a);
  }

  /** The stream holds a match two gaps on, but the retried search, having counted the first event twice,
      takes it to lie at three gaps and gives up. */
  lemma RefillIsSeen(a: Bytes, b: Bytes, gap: Int64)
    requires Printable(a) && Printable(b) && 0 < gap && 3 * gap <= MAX_INT64 && a != b
    ensures Scan(Wants(b, gap), FourByte, 0, TwoEvents(a, b, gap)).answer
            == Matched(Event(b, 2 * gap), |Print(gap, a)| + |Print(gap, b)|, 0)
    ensures var o := Retry(Searching(Wants(b, gap), FourByte), FirstInWindow(a, b, gap), 1);
            o.Done? && o.answer == Failed(QueryNotFound)
  {
    var f, m := Searching(Wants(b, gap), FourByte), FirstInWindow(a, b, gap);
    ScanTwoEvents(Wants(b, gap), 0, a, b, gap);
    ScanTwoEvents(Wants(b, gap), gap, a, b, gap);
    BothBases(a, b, gap);
    FirstAttemptAdvances(a, b, gap);
    assert m.feed.rest[..|m.feed.rest|] == m.feed.rest;
    assert Next(f, m) == Machine(gap, TwoEvents(a, b, gap), Grown(m), Feed([], []));
  }
}
