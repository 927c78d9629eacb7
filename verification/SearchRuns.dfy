/** Wildcard searches through the buffered reader, against the search of the whole stream. */
module SearchRuns {
  import opened Base
  import opened FrameCodec
  import opened WholeStream
  import opened WildcardQuery
  import opened TimedSearch
  import opened RetryLoop
  import opened DecodingCalls
  import opened Runs
  import opened ReaderRuns

  const WHOLE_TIME := Interval(0, MAX_INT64)

  /** What the wildcard reads return for an answer. */
  function MatchOf(answer: Answer): Result<(Event, nat)> {
    match answer
    case Matched(event, _, query) => Success((event, query))
    case Failed(error) => Failure(error)
    case _ => Failure(CorruptedIr)
  }

  // ----- Eight-byte streams: one search -----

  /** Across any number of refills the search answers exactly what the remaining log calls for. */
  lemma SearchRefines(r: Request, m: Machine, refills: nat, answer: Answer)
    requires m.Valid() && Retry(Searching(r, EightByte), m, refills).Genuine()
    ensures Retry(Searching(r, EightByte), m, refills).answer == answer
            <==> IsSearchOf(r, LogOf(EightByte, m), m.Remaining(), answer)
  {
    SearchingIsStable(r, EightByte);
    EightByteSearchRepeats(r);
    RetryRefines(Searching(r, EightByte), m, refills);
    ScanIffSearch(r, EightByte, m.timestamp, m.Remaining(), answer);
  }

  /** Dropping the bytes of a match drops its event and those before it, whatever the timestamp left. */
  lemma DropSettled(r: Request, base: Int64, left: Int64, s: Bytes, answer: Answer) returns (i: nat)
    requires IsSearchOf(r, Decode(EightByte, base, s), s, answer) && answer.Matched? && answer.pos <= |s|
    ensures var log := Decode(EightByte, base, s);
            && i < |log.events| && Settles(r, log, s, i, answer)
            && s[answer.pos..] == Skip(s, i + 1)
            && Decode(EightByte, left, s[answer.pos..]) == Log(log.events[i + 1..], log.ending)
  {
    var log := Decode(EightByte, base, s);
    i :| i < |log.events| && Settles(r, log, s, i, answer);
    SkipIsSuffix(s, i + 1);
    DropEvents(base, left, s, log, i + 1);
  }

  lemma DropEvents(base: Int64, left: Int64, s: Bytes, log: Log, count: nat)
    requires log == Decode(EightByte, base, s) && count <= |log.events|
    ensures Decode(EightByte, left, Skip(s, count)) == Log(log.events[count..], log.ending)
  {
    DecodeResumes(EightByte, base, s, count);
    EightByteLog(left, BaseAfter(log, base, count), Skip(s, count));
  }

  /** A match of an eight-byte search consumes the stream up to and including the matching event, the one at
      index `i`; every other outcome leaves it alone, so that the log is the same for the next call. */
  lemma SearchConsumes(r: Request, m: Machine, refills: nat) returns (i: nat)
    requires m.Valid()
    ensures var o, log := Retry(Searching(r, EightByte), m, refills), LogOf(EightByte, m);
            if o.Genuine() && o.answer.Matched? then
              && i < |log.events| && Settles(r, log, m.Remaining(), i, o.answer)
              && o.m.Remaining() == Skip(m.Remaining(), i + 1)
              && LogOf(EightByte, o.m) == Log(log.events[i + 1..], log.ending)
            else o.m.Remaining() == m.Remaining() && LogOf(EightByte, o.m) == log
  {
    var o, all := Retry(Searching(r, EightByte), m, refills), m.Remaining();
    RetryConserves(Searching(r, EightByte), m, refills);
    SearchOnlyMatches(r, m, refills);
    i := 0;
    if o.Genuine() && o.answer.Matched? {
      SearchRefines(r, m, refills, o.answer);
      i := DropSettled(r, m.timestamp, o.m.timestamp, all, o.answer);
    } else {
      assert all[0..] == all;
      EightByteLog(o.m.timestamp, m.timestamp, all);
    }
  }

  lemma {:induction false} SearchOnlyMatches(r: Request, m: Machine, refills: nat)
    requires m.Valid()
    ensures var o := Retry(Searching(r, EightByte), m, refills); o.Done? ==> o.answer.Matched? || o.answer.Failed?
    decreases refills
  {
    var f := Searching(r, EightByte);
    if GoesOn(f, m, refills) {
      SearchOnlyMatches(r, Next(f, m), refills - 1);
    }
  }

  /** On a log in timestamp order the early exit misses nothing: QueryNotFound means that no event left
      lies in the interval and matches. */
  lemma NotFoundMeansNone(r: Request, m: Machine, refills: nat)
    requires m.Valid() && Sorted(LogOf(EightByte, m).events)
    requires Retry(Searching(r, EightByte), m, refills).Done?
    requires Retry(Searching(r, EightByte), m, refills).answer == Failed(QueryNotFound)
    ensures var events := LogOf(EightByte, m).events; forall i | 0 <= i < |events| :: !r.Hit(events[i])
  {
    SearchRefines(r, m, refills, Failed(QueryNotFound));
    EarlyExitIsComplete(r, LogOf(EightByte, m), m.Remaining());
  }

  /** An eight-byte search that ended in an error of its own repeats it and changes nothing more. */
  lemma SearchIsStable(r: Request, m: Machine, refills: nat, later: nat)
    requires m.Valid() && Retry(Searching(r, EightByte), m, refills).Genuine()
    requires Retry(Searching(r, EightByte), m, refills).answer.Failed?
    ensures Retry(Searching(r, EightByte), Retry(Searching(r, EightByte), m, refills).m, later)
            == Retry(Searching(r, EightByte), m, refills)
  {
    SearchingIsStable(r, EightByte);
    assert FailsAgain(Searching(r, EightByte));
    TerminalRepeats(Searching(r, EightByte), m, refills, later);
  }

  // ----- Termination -----

  /** A search of a stream that is not truncated settles on it, whatever timestamp it starts from. */
  lemma WholeStreamSettles(r: Request, enc: Encoding, base: Int64, all: Bytes)
    requires !Decode(enc, base, all).ending.Truncated?
    ensures SettledBy(Searching(r, enc), all, |all|)
  {
    assert all[..|all|] == all;
    forall other: Int64
      ensures !Scan(r, enc, other, all).Incomplete()
    {
      EndingIgnoresBase(enc, base, other, all);
      ScanIsSearch(r, enc, other, all);
    }
  }

  /** With a fair source every search returns whose stream settles it from every timestamp, a stream that is
      not truncated for one, in both encodings. */
  lemma SearchTerminates(r: Request, enc: Encoding, m: Machine, refills: nat)
    requires Promising(m, refills)
    requires || SettledBy(Searching(r, enc), m.Remaining(), |m.Remaining()|)
             || !LogOf(enc, m).ending.Truncated?
    ensures var o := Retry(Searching(r, enc), m, refills); o.Genuine() && Promising(o.m, refills)
  {
    SearchingIsStable(r, enc);
    if !LogOf(enc, m).ending.Truncated? {
      WholeStreamSettles(r, enc, m.timestamp, m.Remaining());
    }
    PromiseKept(Searching(r, enc), m, refills);
  }

  /** Exactly when an eight-byte search returns, given a fair source: unless the stream is truncated with
      neither a hit nor a late event before the cut. */
  lemma SearchHaltsIff(r: Request, m: Machine)
    requires m.Valid() && Fair(m)
    ensures (exists refills: nat :: Retry(Searching(r, EightByte), m, refills).Done?)
            <==> !(LogOf(EightByte, m).ending.Truncated?
                   && Passed(r, LogOf(EightByte, m).events, |LogOf(EightByte, m).events|))
  {
    SearchingIsStable(r, EightByte);
    EightByteSearchRepeats(r);
    RetryHaltsIff(Searching(r, EightByte), m);
    ScanIffSearch(r, EightByte, m.timestamp, m.Remaining(), Failed(IncompleteIr));
    SearchIncompleteIff(r, LogOf(EightByte, m), m.Remaining());
  }

  // ----- Eight-byte streams: runs -----

  /** The hits before the first late event, each with its least matching query. */
  function Hits(r: Request, events: seq<Event>): seq<Answer> {
    if events == [] || r.Late(events[0]) then []
    else
      (if r.Hit(events[0]) then [Matched(events[0], 0, r.FirstMatch(events[0].message, 0))] else [])
      + Hits(r, events[1..])
  }

  predicate StopsEarly(r: Request, events: seq<Event>) {
    events != [] && (r.Late(events[0]) || StopsEarly(r, events[1..]))
  }

  /** What the same search, called over and over, has to answer. */
  function SearchScript(r: Request, log: Log): Script {
    Script(Hits(r, log.events),
           if StopsEarly(r, log.events) then Some(Failed(QueryNotFound)) else LastAnswer(log.ending))
  }

  lemma {:induction false} HitsSkip(r: Request, events: seq<Event>, count: nat)
    requires count <= |events| && Passed(r, events, count)
    ensures Hits(r, events) == Hits(r, events[count..])
    ensures StopsEarly(r, events) == StopsEarly(r, events[count..])
    decreases count
  {
    if count == 0 {
      assert events[0..] == events;
    } else {
      assert !r.Hit(events[0]) && !r.Late(events[0]);
      assert forall j | 0 <= j < count - 1 :: events[1..][j] == events[j + 1];
      HitsSkip(r, events[1..], count - 1);
      assert events[1..][count - 1..] == events[count..];
    }
  }

  lemma LeastIsFirst(r: Request, i: nat, message: Bytes)
    requires r.Least(i, message)
    ensures i == r.FirstMatch(message, 0)
  {
  }

  /** An answer settled at event `i` is the next one in the script. */
  lemma SettledIsNext(r: Request, log: Log, s: Bytes, i: nat, answer: Answer)
    requires i < |log.events| && Settles(r, log, s, i, answer)
    ensures NextIn(answer, SearchScript(r, log),
                   SearchScript(r, if answer.Matched? then Log(log.events[i + 1..], log.ending) else log))
  {
    HitsSkip(r, log.events, i);
    var rest := log.events[i..];
    assert rest[0] == log.events[i] && rest[1..] == log.events[i + 1..];
    if answer.Matched? {
      LeastIsFirst(r, answer.query, answer.event.message);
      assert Hits(r, log.events)[1..] == Hits(r, rest[1..]);
    }
  }

  lemma UnsettledIsNext(r: Request, log: Log)
    requires Passed(r, log.events, |log.events|) && !log.ending.Truncated?
    ensures NextIn(Failed(EndingError(log.ending)), SearchScript(r, log), SearchScript(r, log))
  {
    HitsSkip(r, log.events, |log.events|);
  }

  lemma SearchIsNext(r: Request, m: Machine, refills: nat)
    requires m.Valid() && Retry(Searching(r, EightByte), m, refills).Done?
    ensures var o := Retry(Searching(r, EightByte), m, refills);
            NextIn(o.answer, SearchScript(r, LogOf(EightByte, m)), SearchScript(r, LogOf(EightByte, o.m)))
  {
    var o, log, all := Retry(Searching(r, EightByte), m, refills), LogOf(EightByte, m), m.Remaining();
    var hit := SearchConsumes(r, m, refills);
    if o.Genuine() {
      SearchRefines(r, m, refills, o.answer);
      if o.answer.Matched? {
        SettledIsNext(r, log, all, hit, o.answer);
      } else if i: nat :| i < |log.events| && Settles(r, log, all, i, o.answer) {
        SettledIsNext(r, log, all, i, o.answer);
      } else {
        SearchingIsStable(r, EightByte);
        RetryIsOneAttempt(Searching(r, EightByte), m, refills);
        UnsettledIsNext(r, log);
      }
    }
  }

  function SearchingFor(r: Request, enc: Encoding, refills: nat): Caller {
    (m: Machine) => if m.Valid() then Retry(Searching(r, enc), m, refills) else Pending(m)
  }

  /** A run of the same eight-byte search enumerates the hits in order, with their least matching
      queries, up to the first late event or the end, whatever the chunks and breaks. */
  lemma SearchesEnumerate(r: Request, m: Machine, count: nat, refills: nat)
    requires m.Valid()
    ensures Follows(Genuine(Calls(SearchingFor(r, EightByte, refills), m, count).answers),
                    SearchScript(r, LogOf(EightByte, m)))
  {
    var call := SearchingFor(r, EightByte, refills);
    var good := (m: Machine) => m.Valid();
    var script := (m: Machine) => SearchScript(r, LogOf(EightByte, m));
    forall m: Machine | good(m) && call(m).Done?
      ensures NextIn(call(m).answer, script(m), script(call(m).m))
    {
      SearchIsNext(r, m, refills);
    }
    RunFollows(call, good, script, m, count);
  }

  lemma {:induction false} NothingNextIff(r: Request, events: seq<Event>)
    ensures Hits(r, events) == [] && !StopsEarly(r, events) <==> Passed(r, events, |events|)
    decreases |events|
  {
    if events != [] {
      NothingNextIff(r, events[1..]);
      assert forall j | 1 <= j < |events| :: events[j] == events[1..][j - 1];
    }
  }

  /** With a fair source an eight-byte search returns exactly if a hit, a late event or a proper ending is
      left. */
  lemma FairSearch(r: Request, m: Machine, refills: nat)
    requires Promising(m, refills)
    ensures var o := Retry(Searching(r, EightByte), m, refills);
            && Promising(o.m, refills) && (o.Done? ==> o.Genuine())
            && (o.Done? <==> HasNext(SearchScript(r, LogOf(EightByte, m))))
  {
    var f, log := Searching(r, EightByte), LogOf(EightByte, m);
    SearchingIsStable(r, EightByte);
    EightByteSearchRepeats(r);
    PromiseKept(f, m, refills);
    PromiseIff(f, m, refills);
    ScanIffSearch(r, EightByte, m.timestamp, m.Remaining(), Failed(IncompleteIr));
    SearchIncompleteIff(r, log, m.Remaining());
    NothingNextIff(r, log.events);
  }

  lemma SearchIncompleteIff(r: Request, log: Log, s: Bytes)
    ensures IsSearchOf(r, log, s, Failed(IncompleteIr))
            <==> log.ending.Truncated? && Passed(r, log.events, |log.events|)
  {
  }

  /** With a fair source the answers of a run of the same eight-byte search are exactly those its script
      holds; on a truncated stream without a late event the search behind the last hit does not return. */
  lemma FairSearches(r: Request, m: Machine, count: nat, refills: nat)
    requires Promising(m, refills)
    ensures var answers, script := Calls(SearchingFor(r, EightByte, refills), m, count).answers,
                                   SearchScript(r, LogOf(EightByte, m));
            && |answers| == Returning(script, count) && Genuine(answers) == answers
            && Follows(answers, script)
  {
    var call := SearchingFor(r, EightByte, refills);
    var good := (m: Machine) => Promising(m, refills);
    var script := (m: Machine) => SearchScript(r, LogOf(EightByte, m));
    forall m: Machine | good(m)
      ensures good(call(m).m)
      ensures (call(m).Done? <==> HasNext(script(m))) && (call(m).Done? ==> call(m).Genuine())
      ensures call(m).Done? ==> NextIn(call(m).answer, script(m), script(call(m).m))
    {
      FairSearch(r, m, refills);
      if call(m).Done? {
        SearchIsNext(r, m, refills);
      }
    }
    RunLength(call, good, script, m, count);
    SearchesEnumerate(r, m, count, refills);
  }

  // ----- Searching and filtering -----

  predicate InWholeTime(events: seq<Event>) {
    forall i | 0 <= i < |events| :: 0 <= events[i].timestamp < MAX_INT64
  }

  /** The predicate "some query matches". */
  function AnyMatch(r: Request): Event -> bool {
    (e: Event) => r.Accepts(e.message)
  }

  /** The two fail alike, or find the same event and leave the same bytes. */
  predicate SameFind(search: Outcome, filter: Outcome)
    requires search.Done? && filter.Done?
  {
    if search.answer.Failed? then filter.answer == search.answer
    else
      && search.answer.Matched? && filter.answer.Got? && filter.answer.event == search.answer.event
      && search.m.Remaining() == filter.m.Remaining()
  }

  /** The event at `first` lies in the whole-time interval, and none before it at the largest timestamp. */
  predicate InWholeTimeAt(events: seq<Event>, first: nat)
    requires first <= |events|
  {
    && (forall j | 0 <= j < first :: events[j].timestamp != MAX_INT64)
    && (first < |events| ==> 0 <= events[first].timestamp < MAX_INT64)
  }

  /** `first` is where the first accepted event is, or the number of events if there is none. */
  predicate FirstAccepted(f: Event -> bool, events: seq<Event>, first: nat) {
    first <= |events| && NoneAccepted(f, events, first) && (first < |events| ==> f(events[first]))
  }

  /** Exactly when ReadToWildcardMatch and ReadToFunc with the predicate "some query matches" come to the same:
      when the first accepted event's timestamp is in [0, MaxInt64) and none before it is MaxInt64. */
  lemma WildcardMatchIsReadToIff(r: Request, m: Machine, one: nat, two: nat) returns (first: nat)
    requires m.Valid() && r.interval == WHOLE_TIME
    requires Retry(Searching(r, EightByte), m, one).Genuine()
    requires ReadTo(EightByte, AnyMatch(r), m, two).Genuine()
    ensures var search, filter := Retry(Searching(r, EightByte), m, one), ReadTo(EightByte, AnyMatch(r), m, two);
            var events := LogOf(EightByte, m).events;
            && FirstAccepted(AnyMatch(r), events, first)
            && (SameFind(search, filter) <==> InWholeTimeAt(events, first))
            && (search.answer.Failed? ==> search.m.Remaining() == m.Remaining())
  {
    var log, all := LogOf(EightByte, m), m.Remaining();
    var search, filter := Retry(Searching(r, EightByte), m, one), ReadTo(EightByte, AnyMatch(r), m, two);
    first := ReadToFinds(EightByte, AnyMatch(r), m, two, filter);
    var i := SearchConsumes(r, m, one);
    SearchOnlyMatches(r, m, one);
    if search.answer.Matched? {
      MatchAt(r, log.events, i, first);
      if i > first {
        SkipDistinct(m.timestamp, all, first + 1, i + 1);
      }
    } else {
      SearchRefines(r, m, one, search.answer);
      if k: nat :| k < |log.events| && Settles(r, log, all, k, search.answer) {
        LateAt(r, log.events, k, first);
      } else {
        NothingAt(r, log.events, first);
      }
    }
  }

  /** A hit behind the first accepted event means that this one lies before timestamp 0. */
  lemma MatchAt(r: Request, events: seq<Event>, i: nat, first: nat)
    requires r.interval == WHOLE_TIME && FirstAccepted(AnyMatch(r), events, first)
    requires i < |events| && Passed(r, events, i) && r.Hit(events[i])
    ensures first <= i && (InWholeTimeAt(events, first) <==> i == first)
  {
    assert AnyMatch(r)(events[i]);
  }

  lemma LateAt(r: Request, events: seq<Event>, i: nat, first: nat)
    requires r.interval == WHOLE_TIME && FirstAccepted(AnyMatch(r), events, first)
    requires i < |events| && Passed(r, events, i) && r.Late(events[i])
    ensures !InWholeTimeAt(events, first)
  {
    if first < i {
      assert !r.Hit(events[first]);
    }
  }

  lemma NothingAt(r: Request, events: seq<Event>, first: nat)
    requires r.interval == WHOLE_TIME && FirstAccepted(AnyMatch(r), events, first)
    requires Passed(r, events, |events|)
    ensures InWholeTimeAt(events, first) <==> first == |events|
  {
    if first < |events| {
      assert !r.Hit(events[first]);
    } else {
      assert forall j | 0 <= j < first :: !r.Late(events[j]);
    }
  }

  /** Different numbers of frames leave different bytes. */
  lemma SkipDistinct(base: Int64, s: Bytes, fewer: nat, more: nat)
    requires fewer < more <= |Decode(EightByte, base, s).events|
    ensures Skip(s, fewer) != Skip(s, more)
  {
    var rest := Skip(s, fewer);
    DecodeResumes(EightByte, base, s, fewer);
    SkipAdds(s, fewer, more - fewer);
    assert Skip(rest, more - fewer) == Skip(rest[Parse(rest).size..], more - fewer - 1);
  }

  /** For timestamps from 0 up to, but not including, the largest one the two always come to the same. On
      failure only ReadToFunc has consumed the events it read. */
  lemma WildcardMatchIsReadTo(r: Request, m: Machine, one: nat, two: nat)
    requires m.Valid() && r.interval == WHOLE_TIME && InWholeTime(LogOf(EightByte, m).events)
    requires Retry(Searching(r, EightByte), m, one).Genuine()
    requires ReadTo(EightByte, AnyMatch(r), m, two).Genuine()
    ensures SameFind(Retry(Searching(r, EightByte), m, one), ReadTo(EightByte, AnyMatch(r), m, two))
    ensures var search := Retry(Searching(r, EightByte), m, one);
            search.answer.Failed? ==> search.m.Remaining() == m.Remaining()
  {
    var first := WildcardMatchIsReadToIff(r, m, one, two);
  }

  /** One event stamped before 0 and the end of the stream, all in the window. */
  function Early(a: Bytes): (m: Machine)
    requires Printable(a)
    ensures m.Valid()
  {
    Machine(0, Print(-1, a) + [EOF_TAG], |Print(-1, a)| + 1, Feed([], []))
  }

  /** With no queries every message is accepted, but the search misses the event that ReadToFunc finds. */
  lemma EarlyIsMissed(a: Bytes, matches: Matcher)
    requires Printable(a)
    ensures var r, m := Request([], WHOLE_TIME, matches), Early(a);
            var search, filter := Retry(Searching(r, EightByte), m, 0), ReadTo(EightByte, AnyMatch(r), m, 0);
            && search.Done? && search.answer == Failed(EndOfIr)
            && filter.Done? && filter.answer == Got(Event(a, -1), |Print(-1, a)|)
  {
    var r, m := Request([], WHOLE_TIME, matches), Early(a);
    ParsePrint(-1, a, [EOF_TAG]);
    assert m.window[|Print(-1, a)|..] == [EOF_TAG];
    ScanStep(r, EightByte, 0, m.window, Event(a, -1), |Print(-1, a)|);
  }

  // ----- Growth -----

  /** The bytes a search looks at: through the match, the first late event, or the tag that ends it. */
  function Extent(r: Request, enc: Encoding, base: Int64, s: Bytes): nat
    decreases |s|
  {
    match Parse(s)
    case Frame(field, message, size) =>
      var event := Event(message, Stamp(enc, base, field));
      if r.Late(event) || r.Hit(event) then size else size + Extent(r, enc, event.timestamp, s[size..])
    case _ => 1
  }

  /** A scan of a prefix that holds the first frame meets the same event. */
  lemma PrefixStep(r: Request, enc: Encoding, base: Int64, s: Bytes, n: nat, event: Event, size: nat)
    requires Parse(s).Frame? && size == Parse(s).size <= n <= |s|
    requires event == Event(Parse(s).message, Stamp(enc, base, Parse(s).field))
    ensures Scan(r, enc, base, s[..n])
            == Behind(r, event, size, Scan(r, enc, event.timestamp, s[size..][..n - size]))
  {
    ParseLocal(s, n);
    ScanStep(r, enc, base, s[..n], event, size);
    assert s[..n][size..] == s[size..][..n - size];
  }

  /** With its first frame inside a prefix, a scan of either stops there or goes on behind it. */
  lemma FrameSettles(r: Request, enc: Encoding, base: Int64, s: Bytes, n: nat, event: Event, size: nat)
    requires Parse(s).Frame? && size == Parse(s).size <= n <= |s|
    requires event == Event(Parse(s).message, Stamp(enc, base, Parse(s).field))
    ensures Scan(r, enc, base, s).Incomplete()
            <==> !r.Late(event) && !r.Hit(event) && Scan(r, enc, event.timestamp, s[size..]).Incomplete()
    ensures Scan(r, enc, base, s[..n]).Incomplete()
            <==> !r.Late(event) && !r.Hit(event) && Scan(r, enc, event.timestamp, s[size..][..n - size]).Incomplete()
  {
    ScanStep(r, enc, base, s, event, size);
    PrefixStep(r, enc, base, s, n, event, size);
  }

  lemma {:induction false} ExtentSettles(r: Request, enc: Encoding, base: Int64, s: Bytes, n: nat)
    requires !Scan(r, enc, base, s).Incomplete() && Extent(r, enc, base, s) <= n <= |s|
    ensures !Scan(r, enc, base, s[..n]).Incomplete()
    decreases |s|
  {
    match Parse(s)
    case Frame(field, message, size) =>
      var event := Event(message, Stamp(enc, base, field));
      FrameSettles(r, enc, base, s, n, event, size);
      if !r.Late(event) && !r.Hit(event) {
        ExtentSettles(r, enc, event.timestamp, s[size..], n - size);
      }
    case _ => ParseLocal(s, n);
  }

  /** The events a search walks stay in the buffer until it settles; the buffer stays within its size or
      four times the bytes the search looks at. It holds for eight-byte streams, and for four-byte ones
      when no failed attempt moves the timestamp. */
  lemma SearchGrowth(r: Request, enc: Encoding, m: Machine, refills: nat)
    requires m.Valid() && !Scan(r, enc, m.timestamp, m.Remaining()).Incomplete()
    requires enc.EightByte? || Steady(Searching(r, enc), m, refills)
    ensures Retry(Searching(r, enc), m, refills).m.capacity
            <= Max(m.capacity, 4 * Extent(r, enc, m.timestamp, m.Remaining()))
  {
    var f, all, extent := Searching(r, enc), m.Remaining(), Extent(r, enc, m.timestamp, m.Remaining());
    forall n | 0 <= n <= |all| && f(m.timestamp, all[..n]).Incomplete()
      ensures n < extent
    {
      if n >= extent {
        ExtentSettles(r, enc, m.timestamp, all, n);
      }
    }
    if enc.EightByte? {
      EightByteSearchRepeats(r);
    }
    RetryGrowth(f, m, refills, extent);
  }
}
