/** Whole runs of a reader, against the decoding of the whole stream. */
module ReaderRuns {
  import opened Base
  import opened FrameCodec
  import opened PreambleCodec
  import opened WholeStream
  import opened TimedSearch
  import opened RetryLoop
  import opened DecodingCalls
  import opened Runs

  /** What Read returns for an answer. */
  function EventOf(answer: Answer): Result<Event> {
    match answer
    case Got(event, _) => Success(event)
    case Failed(error) => Failure(error)
    case _ => Failure(CorruptedIr)
  }

  /** The log of what a machine has not consumed. */
  function LogOf(enc: Encoding, m: Machine): Log {
    Decode(enc, m.timestamp, m.Remaining())
  }

  // ----- One read -----

  /** A read answered by the deserializer returns the first event of the log, or the log's ending; one
      cut short by the source, or still pending, changes neither. */
  lemma ReadOne(enc: Encoding, m: Machine, refills: nat)
    requires m.Valid()
    ensures var o, log := Retry(Reading(enc), m, refills), LogOf(enc, m);
            && (!o.Genuine() ==> LogOf(enc, o.m) == log && o.m.Remaining() == m.Remaining())
            && (o.Genuine() && log.events != [] ==>
                  && Bare(o.answer) == Got(log.events[0], 0)
                  && LogOf(enc, o.m) == Log(log.events[1..], log.ending)
                  && o.m.Remaining() == Skip(m.Remaining(), 1)
                  && |o.m.Remaining()| < |m.Remaining()|)
            && (o.Genuine() && log.events == [] ==>
                  && o.answer == Failed(EndingError(log.ending)) && !log.ending.Truncated?
                  && LogOf(enc, o.m) == log && o.m.Remaining() == m.Remaining())
  {
    var f, o, all := Reading(enc), Retry(Reading(enc), m, refills), m.Remaining();
    ReadingIsStable(enc);
    TimestampIsKept(f, m, refills);
    RetryConserves(f, m, refills);
    assert all[0..] == all;
    if o.Genuine() {
      RetryIsOneAttempt(f, m, refills);
      if Parse(all).Frame? {
        assert Skip(all, 1) == Skip(all[Parse(all).size..], 0);
        assert LogOf(enc, m).events[1..] == LogOf(enc, o.m).events;
      }
    }
  }

  /** A successful read uses at least one byte, so repeated reads come to an end. */
  lemma ReadConsumes(enc: Encoding, m: Machine, refills: nat)
    requires m.Valid()
    ensures var o := Retry(Reading(enc), m, refills);
            o.Done? && o.answer.Got? ==> |o.m.Remaining()| < |m.Remaining()|
  {
    ReadOne(enc, m, refills);
  }

  /** Exactly when a read returns, if the source never breaks and is willing to deliver everything: when
      something is left to answer with. On a truncated stream, once all events are read, it never returns. */
  lemma ReadHaltsIff(enc: Encoding, m: Machine)
    requires m.Valid() && Fair(m)
    ensures (exists refills: nat :: Retry(Reading(enc), m, refills).Done?)
            <==> LogOf(enc, m) != Log([], Truncated)
  {
    ReadingIsStable(enc);
    RetryHaltsIff(Reading(enc), m);
  }

  // ----- Reading to an event -----

  /** Reading until `f` accepts an event. */
  function ReadTo(enc: Encoding, f: Event -> bool, m: Machine, refills: nat): (o: Outcome)
    requires m.Valid()
    ensures o.m.Valid()
    decreases |m.Remaining()|
  {
    var o := Retry(Reading(enc), m, refills);
    if o.Done? && o.answer.Got? && !f(o.answer.event) then
      ReadConsumes(enc, m, refills);
      ReadTo(enc, f, o.m, refills)
    else o
  }

  predicate NoneAccepted(f: Event -> bool, events: seq<Event>, count: nat)
    requires count <= |events|
  {
    forall j | 0 <= j < count :: !f(events[j])
  }

  /** `o` is what ReadToFunc comes to after passing over `passed` rejected events and no more: a returned
      event is the first accepted one, an error of the stream means none was left, and a break of the
      source loses nothing. */
  predicate Found(enc: Encoding, f: Event -> bool, m: Machine, o: Outcome, passed: nat) {
    var log, after := LogOf(enc, m), LogOf(enc, o.m);
    && passed <= |log.events| && NoneAccepted(f, log.events, passed)
    && if !o.Genuine() then
         after == Log(log.events[passed..], log.ending) && o.m.Remaining() == Skip(m.Remaining(), passed)
       else if passed < |log.events| then
         && Bare(o.answer) == Got(log.events[passed], 0) && f(log.events[passed])
         && after == Log(log.events[passed + 1..], log.ending)
         && o.m.Remaining() == Skip(m.Remaining(), passed + 1)
       else
         && o.answer == Failed(EndingError(log.ending)) && !log.ending.Truncated?
         && after == Log([], log.ending) && o.m.Remaining() == Skip(m.Remaining(), passed)
  }

  lemma FoundBehind(enc: Encoding, f: Event -> bool, m: Machine, next: Machine, o: Outcome, passed: nat)
    requires LogOf(enc, m).events != [] && !f(LogOf(enc, m).events[0])
    requires LogOf(enc, next) == Log(LogOf(enc, m).events[1..], LogOf(enc, m).ending)
    requires next.Remaining() == Skip(m.Remaining(), 1)
    requires Found(enc, f, next, o, passed)
    ensures Found(enc, f, m, o, passed + 1)
  {
    var events, later := LogOf(enc, m).events, LogOf(enc, next).events;
    SkipAdds(m.Remaining(), 1, passed);
    SkipAdds(m.Remaining(), 1, passed + 1);
    assert later[passed..] == events[passed + 1..];
    assert passed < |later| ==> later[passed + 1..] == events[passed + 2..];
    assert forall j | 1 <= j < |events| :: events[j] == later[j - 1];
  }

  lemma FoundAtOnce(enc: Encoding, f: Event -> bool, m: Machine, refills: nat)
    requires m.Valid()
    requires var o := Retry(Reading(enc), m, refills); !(o.Done? && o.answer.Got? && !f(o.answer.event))
    ensures Found(enc, f, m, Retry(Reading(enc), m, refills), 0)
  {
    ReadOne(enc, m, refills);
    assert LogOf(enc, m).events[0..] == LogOf(enc, m).events;
  }

  lemma FoundLater(enc: Encoding, f: Event -> bool, m: Machine, refills: nat, o: Outcome, passed: nat)
    requires m.Valid()
    requires var first := Retry(Reading(enc), m, refills);
             first.Done? && first.answer.Got? && !f(first.answer.event) && Found(enc, f, first.m, o, passed)
    ensures Found(enc, f, m, o, passed + 1)
  {
    ReadOne(enc, m, refills);
    FoundBehind(enc, f, m, Retry(Reading(enc), m, refills).m, o, passed);
  }

  lemma {:induction false} ReadToFinds(enc: Encoding, f: Event -> bool, m: Machine, refills: nat, o: Outcome)
    returns (passed: nat)
    requires m.Valid() && o == ReadTo(enc, f, m, refills)
    ensures Found(enc, f, m, o, passed)
    decreases |m.Remaining()|
  {
    var first := Retry(Reading(enc), m, refills);
    if first.Done? && first.answer.Got? && !f(first.answer.event) {
      ReadConsumes(enc, m, refills);
      var later := ReadToFinds(enc, f, first.m, refills, o);
      FoundLater(enc, f, m, refills, o, later);
      passed := later + 1;
    } else {
      FoundAtOnce(enc, f, m, refills);
      passed := 0;
    }
  }

  // ----- Runs -----

  function Filter(f: Event -> bool, events: seq<Event>): seq<Event> {
    if events == [] then [] else (if f(events[0]) then [events[0]] else []) + Filter(f, events[1..])
  }

  lemma {:induction false} FilterSkips(f: Event -> bool, events: seq<Event>, count: nat)
    requires count <= |events| && NoneAccepted(f, events, count)
    ensures Filter(f, events) == Filter(f, events[count..])
    decreases count
  {
    if count == 0 {
      assert events[0..] == events;
    } else {
      assert !f(events[0]);
      assert forall j | 0 <= j < count - 1 :: events[1..][j] == events[j + 1];
      FilterSkips(f, events[1..], count - 1);
      assert events[1..][count - 1..] == events[count..];
    }
  }

  function Gots(events: seq<Event>): seq<Answer> {
    if events == [] then [] else [Got(events[0], 0)] + Gots(events[1..])
  }

  /** How a run of reads ends: on a truncated stream it does not. */
  function LastAnswer(ending: Ending): Option<Answer> {
    if ending.Truncated? then None else Some(Failed(EndingError(ending)))
  }

  /** What ReadToFunc(f), called over and over, has to answer: the accepted events, then the ending. */
  function ReadScript(f: Event -> bool, log: Log): Script {
    Script(Gots(Filter(f, log.events)), LastAnswer(log.ending))
  }

  /** ReadToFunc(f). */
  function ReadingTo(enc: Encoding, f: Event -> bool, refills: nat): Caller {
    (m: Machine) => if m.Valid() then ReadTo(enc, f, m, refills) else Pending(m)
  }

  lemma ScriptStep(f: Event -> bool, log: Log, passed: nat)
    requires passed <= |log.events| && NoneAccepted(f, log.events, passed)
    ensures ReadScript(f, log) == ReadScript(f, Log(log.events[passed..], log.ending))
    ensures passed == |log.events| ==> ReadScript(f, log).answers == []
    ensures passed < |log.events| && f(log.events[passed]) ==>
              ReadScript(f, log).answers
              == [Got(log.events[passed], 0)] + ReadScript(f, Log(log.events[passed + 1..], log.ending)).answers
  {
    FilterSkips(f, log.events, passed);
    if passed < |log.events| {
      assert log.events[passed..][1..] == log.events[passed + 1..];
    }
  }

  /** Each call of ReadToFunc answers with the head of its script, or leaves the script as it is. */
  lemma ReadToIsNext(enc: Encoding, f: Event -> bool, m: Machine, refills: nat)
    requires m.Valid()
    ensures var o := ReadTo(enc, f, m, refills);
            o.Done? ==> NextIn(o.answer, ReadScript(f, LogOf(enc, m)), ReadScript(f, LogOf(enc, o.m)))
  {
    var o, log := ReadTo(enc, f, m, refills), LogOf(enc, m);
    var passed := ReadToFinds(enc, f, m, refills, o);
    ScriptStep(f, log, passed);
    if passed < |log.events| && f(log.events[passed]) {
      var rest := ReadScript(f, Log(log.events[passed + 1..], log.ending)).answers;
      assert ReadScript(f, log).answers[1..] == rest;
    }
  }

  /** Enumeration: whatever sizes the source delivers and however often it breaks, the calls' own
      answers are, in order, the accepted events of the stream and then its ending for ever. On a
      truncated stream no call returns after the last accepted event. */
  lemma CallsEnumerate(enc: Encoding, f: Event -> bool, m: Machine, count: nat, refills: nat)
    requires m.Valid()
    ensures Follows(Genuine(Calls(ReadingTo(enc, f, refills), m, count).answers), ReadScript(f, LogOf(enc, m)))
  {
    var call := ReadingTo(enc, f, refills);
    var good := (m: Machine) => m.Valid();
    var script := (m: Machine) => ReadScript(f, LogOf(enc, m));
    forall m: Machine | good(m) && call(m).Done?
      ensures NextIn(call(m).answer, script(m), script(call(m).m))
    {
      ReadToIsNext(enc, f, m, refills);
    }
    RunFollows(call, good, script, m, count);
  }

  /** Read is ReadToFunc with everything accepted. */
  predicate Every(event: Event) {
    true
  }

  lemma ReadIsReadToEvery(enc: Encoding, m: Machine, refills: nat)
    requires m.Valid()
    ensures ReadTo(enc, Every, m, refills) == Retry(Reading(enc), m, refills)
  {
  }

  lemma {:induction false} FilterEvery(events: seq<Event>)
    ensures Filter(Every, events) == events
  {
    if events != [] {
      FilterEvery(events[1..]);
    }
  }

  /** The events of a log, then its ending. */
  function StreamScript(log: Log): Script {
    Script(Gots(log.events), LastAnswer(log.ending))
  }

  /** Chunking independence: for every stream, every chunking and any number of breaks, the answers of a
      run of reads are the events of the whole-stream decode in order, and then its ending. */
  lemma ChunksAreInvisible(enc: Encoding, m: Machine, count: nat, refills: nat)
    requires m.Valid()
    ensures Follows(Genuine(Calls(ReadingTo(enc, Every, refills), m, count).answers), StreamScript(LogOf(enc, m)))
  {
    CallsEnumerate(enc, Every, m, count, refills);
    FilterEvery(LogOf(enc, m).events);
  }

  // ----- Fair sources -----

  /** With a fair source one read returns exactly if something is left to answer with. */
  lemma FairRead(enc: Encoding, m: Machine, refills: nat)
    requires Promising(m, refills)
    ensures var o := Retry(Reading(enc), m, refills);
            && Promising(o.m, refills) && (o.Done? ==> o.Genuine())
            && (o.Done? <==> LogOf(enc, m) != Log([], Truncated))
  {
    ReadingIsStable(enc);
    PromiseKept(Reading(enc), m, refills);
    PromiseIff(Reading(enc), m, refills);
  }

  /** With a fair source reading to an event returns exactly if an accepted event or a proper ending is left. */
  lemma {:induction false} FairReadTo(enc: Encoding, f: Event -> bool, m: Machine, refills: nat)
    requires Promising(m, refills)
    ensures var o := ReadTo(enc, f, m, refills);
            && Promising(o.m, refills) && (o.Done? ==> o.Genuine())
            && (o.Done? <==> HasNext(ReadScript(f, LogOf(enc, m))))
    decreases |m.Remaining()|
  {
    var o := Retry(Reading(enc), m, refills);
    FairRead(enc, m, refills);
    ReadOne(enc, m, refills);
    if o.Done? && o.answer.Got? && !f(o.answer.event) {
      FairReadTo(enc, f, o.m, refills);
    }
  }

  /** With a fair source the answers of a run are exactly those the whole-stream decode calls for. On a
      truncated stream these are the accepted events, and the next call does not return; otherwise every
      call returns. */
  lemma FairCalls(enc: Encoding, f: Event -> bool, m: Machine, count: nat, refills: nat)
    requires Promising(m, refills)
    ensures var answers, script := Calls(ReadingTo(enc, f, refills), m, count).answers, ReadScript(f, LogOf(enc, m));
            && |answers| == Returning(script, count) && Genuine(answers) == answers
            && Follows(answers, script)
  {
    var call := ReadingTo(enc, f, refills);
    var good := (m: Machine) => Promising(m, refills);
    var script := (m: Machine) => ReadScript(f, LogOf(enc, m));
    forall m: Machine | good(m)
      ensures good(call(m).m)
      ensures (call(m).Done? <==> HasNext(script(m))) && (call(m).Done? ==> call(m).Genuine())
      ensures call(m).Done? ==> NextIn(call(m).answer, script(m), script(call(m).m))
    {
      FairReadTo(enc, f, m, refills);
      ReadToIsNext(enc, f, m, refills);
    }
    RunLength(call, good, script, m, count);
    CallsEnumerate(enc, f, m, count, refills);
  }

  /** For Read: every answer is the deserializer's own, and there are as many as the log calls for. */
  lemma FairReads(enc: Encoding, m: Machine, count: nat, refills: nat)
    requires Promising(m, refills)
    ensures var answers := Calls(ReadingTo(enc, Every, refills), m, count).answers;
            |answers| == Returning(StreamScript(LogOf(enc, m)), count) && Genuine(answers) == answers
  {
    FairCalls(enc, Every, m, count, refills);
    FilterEvery(LogOf(enc, m).events);
  }

  // ----- Terminal answers -----

  /** Once Read has returned the end of the stream or a decoding error, every later Read returns the same
      and changes nothing. */
  lemma ReadIsStable(enc: Encoding, m: Machine, refills: nat, later: nat)
    requires m.Valid() && Retry(Reading(enc), m, refills).Genuine() && Retry(Reading(enc), m, refills).answer.Failed?
    ensures Retry(Reading(enc), Retry(Reading(enc), m, refills).m, later) == Retry(Reading(enc), m, refills)
  {
    ReadingIsStable(enc);
    assert FailsAgain(Reading(enc));
    TerminalRepeats(Reading(enc), m, refills, later);
  }

  // ----- Growth -----

  /** No frame of `s`, nor a truncated rest, needs more than `extent` bytes. */
  predicate FramesWithin(s: Bytes, extent: nat)
    decreases |s|
  {
    match Parse(s)
    case Incomplete => |s| < extent
    case Frame(_, _, size) => size <= extent && FramesWithin(s[size..], extent)
    case _ => 1 <= extent
  }

  lemma ReadingOpenBelow(enc: Encoding, base: Int64, s: Bytes, extent: nat)
    requires FramesWithin(s, extent)
    ensures OpenBelow(Reading(enc), base, s, extent)
  {
    forall n | 0 <= n <= |s| && Parse(s[..n]).Incomplete?
      ensures n < extent
    {
      if !Parse(s).Incomplete? && n >= Need(s) {
        ParseLocal(s, n);
      }
    }
  }

  lemma {:induction false} ReadToGrowth(
    enc: Encoding, f: Event -> bool, m: Machine, refills: nat, extent: nat, limit: nat)
    requires m.Valid() && FramesWithin(m.Remaining(), extent) && m.capacity <= limit && 4 * extent <= limit
    ensures var o := ReadTo(enc, f, m, refills);
            o.m.capacity <= limit && FramesWithin(o.m.Remaining(), extent)
    decreases |m.Remaining()|
  {
    var g, o := Reading(enc), Retry(Reading(enc), m, refills);
    ReadingIsStable(enc);
    ReadingOpenBelow(enc, m.timestamp, m.Remaining(), extent);
    RetryGrowth(g, m, refills, extent);
    ReadOne(enc, m, refills);
    SkipWithin(m.Remaining(), extent);
    if o.Done? && o.answer.Got? && !f(o.answer.event) {
      ReadToGrowth(enc, f, o.m, refills, extent, limit);
    }
  }

  lemma SkipWithin(s: Bytes, extent: nat)
    requires FramesWithin(s, extent)
    ensures FramesWithin(Skip(s, 1), extent)
  {
    if Parse(s).Frame? {
      assert Skip(s, 1) == Skip(s[Parse(s).size..], 0);
    }
  }

  /** In a run of reads the buffer never grows past four times the longest frame, unless it started
      out larger. */
  lemma CallsGrowth(enc: Encoding, f: Event -> bool, m: Machine, count: nat, refills: nat, extent: nat)
    requires m.Valid() && FramesWithin(m.Remaining(), extent)
    ensures Calls(ReadingTo(enc, f, refills), m, count).m.capacity <= Max(m.capacity, 4 * extent)
  {
    var call, limit := ReadingTo(enc, f, refills), Max(m.capacity, 4 * extent);
    var good := (m: Machine) => m.Valid() && FramesWithin(m.Remaining(), extent) && m.capacity <= limit;
    forall m: Machine | good(m)
      ensures good(call(m).m)
    {
      ReadToGrowth(enc, f, m, refills, extent, limit);
    }
    RunKeeps(call, good, m, count);
  }

  // ----- The constructor -----

  /** Whatever the chunks, the constructor answers as one call on the whole stream would, and the window
      begins right behind the preamble. */
  lemma ConstructRefines(size: nat, feed: Feed, refills: nat)
    requires Construct(Opening(), size, feed, refills).Genuine()
    ensures var o, t := Construct(Opening(), size, feed, refills), AttemptOpen(0, feed.rest);
            && o.answer == t.answer && o.m.timestamp == t.timestamp
            && o.m.Remaining() == feed.rest[o.Used()..]
  {
    var d := Deliver(feed, size);
    var m := Machine(0, d.data, size, d.feed);
    DeliverConserves(feed, size);
    OpeningIsStable();
    RetryIsOneAttempt(Opening(), m, refills);
    TimestampIsKept(Opening(), m, refills);
    RetryConserves(Opening(), m, refills);
  }

  /** The constructor keeps the buffer within its size or four times the preamble's. */
  lemma ConstructGrowth(size: nat, feed: Feed, refills: nat, extent: nat)
    requires ParsePreamble(feed.rest).Preamble? && ParsePreamble(feed.rest).size <= extent
    ensures Construct(Opening(), size, feed, refills).m.capacity <= Max(size, 4 * extent)
  {
    var d := Deliver(feed, size);
    var m := Machine(0, d.data, size, d.feed);
    DeliverConserves(feed, size);
    OpeningIsStable();
    forall n | 0 <= n <= |feed.rest| && AttemptOpen(0, feed.rest[..n]).Incomplete()
      ensures n < extent
    {
      if n >= extent {
        PreambleLocal(feed.rest, n);
      }
    }
    RetryGrowth(Opening(), m, refills, extent);
  }

  /** With a source that never breaks and a positive size the constructor returns exactly if the stream's
      preamble is decided. */
  lemma FairConstruct(size: nat, feed: Feed, refills: nat)
    requires size >= 1 && NeverBreaks(feed.plan) && refills >= Patience(feed)
    ensures var o := Construct(Opening(), size, feed, refills);
            && Promising(o.m, refills) && (o.Done? ==> o.Genuine())
            && (o.Done? <==> !ParsePreamble(feed.rest).PreambleIncomplete?)
  {
    var d := Deliver(feed, size);
    var m := Machine(0, d.data, size, d.feed);
    DeliverConserves(feed, size);
    OpeningIsStable();
    PromiseKept(Opening(), m, refills);
    PromiseIff(Opening(), m, refills);
  }

  /** With an initial size of zero the constructor never succeeds: the buffer stays empty. */
  lemma ZeroSizeNeverOpens(feed: Feed, refills: nat)
    ensures !Construct(Opening(), 0, feed, refills).Genuine()
  {
    var d := Deliver(feed, 0);
    OpeningIsStable();
    if !d.status.Broken? {
      ZeroCapacityStaysEmpty(Opening(), Machine(0, d.data, 0, d.feed), refills);
    }
  }
}
