/** From the writer's methods to the reader's: what was written is what is read. */
module RoundTrip {
  import opened Base
  import opened FrameCodec
  import opened PreambleCodec
  import opened WholeStream
  import opened TimedSearch
  import opened RetryLoop
  import opened DecodingCalls
  import opened Runs
  import opened ReaderRuns
  import opened SearchRuns
  import opened WriterRuns
  import opened FourByteSearch
  import Reachable
  import LogRuns

  lemma OpenPrinted(enc: Encoding, metadata: Metadata, body: Bytes)
    requires PrintableMetadata(metadata)
    ensures var preamble := PrintPreamble(enc, metadata);
            && AttemptOpen(0, preamble + body)
               == Try(Opened(enc, metadata.pattern, metadata.patternSyntax, metadata.timeZoneId, |preamble|),
                      StartingTimestamp(enc, metadata))
            && (preamble + body)[|preamble|..] == body
  {
    ParsePrintPreamble(enc, metadata, body);
  }

  /** Whether a written log ends properly depends on whether its writer was closed. */
  function EndingOf(closes: nat): Ending {
    if closes > 0 then Terminated else Truncated
  }

  lemma DecodeWritten(enc: Encoding, previous: Int64, events: seq<Event>, closes: nat)
    requires AllPrintable(events)
    ensures Decode(enc, previous, Frames(enc, previous, events) + Terminators(closes)) == Log(events, EndingOf(closes))
  {
    DecodeFrames(enc, previous, events, Terminators(closes));
    assert events + [] == events;
  }

  lemma StreamOpens(enc: Encoding, metadata: Metadata, events: seq<Event>, closes: nat)
    requires PrintableMetadata(metadata) && AllPrintable(events)
    ensures var stream := StreamOf(enc, metadata, events, closes);
            var t := AttemptOpen(0, stream);
            && t.answer == Opened(enc, metadata.pattern, metadata.patternSyntax, metadata.timeZoneId, t.answer.Used())
            && t.answer.Used() <= |stream|
            && Decode(enc, t.timestamp, stream[t.answer.Used()..]) == Log(events, EndingOf(closes))
  {
    OpenPrinted(enc, metadata, Frames(enc, StartingTimestamp(enc, metadata), events) + Terminators(closes));
    DecodeWritten(enc, StartingTimestamp(enc, metadata), events, closes);
  }

  /** The stream of a writer's run: what its sinks took, then what is still in its buffer. */
  function Written(enc: Encoding, timeZoneId: Bytes, now: Int64, commands: seq<Command>): Bytes
    requires PrintableMetadata(MetadataOf(enc, timeZoneId, now))
  {
    var e := PerformAll(Fresh(enc, timeZoneId, now), commands);
    e.sunk + e.w.buf
  }

  /** A writer's stream opens with its encoding and time zone, and the log behind its preamble is that of the
      admitted events, however the stream was drained; it ends properly if the writer was closed. */
  lemma WrittenStream(enc: Encoding, timeZoneId: Bytes, now: Int64, commands: seq<Command>)
    requires PrintableMetadata(MetadataOf(enc, timeZoneId, now)) && Reset !in commands
    ensures var stream := Written(enc, timeZoneId, now, commands);
            var t := AttemptOpen(0, stream);
            && t.answer == Opened(enc, [], [], timeZoneId, t.answer.Used())
            && t.answer.Used() <= |stream|
            && Decode(enc, t.timestamp, stream[t.answer.Used()..])
               == Log(Admitted(true, commands), EndingOf(Closes(commands)))
  {
    WriterConserves(enc, timeZoneId, now, commands);
    StreamOpens(enc, MetadataOf(enc, timeZoneId, now), Admitted(true, commands), Closes(commands));
  }

  /** A reader over a source that does not break opens as its stream says, on the stream's log. */
  lemma FairOpen(enc: Encoding, feed: Feed, size: nat, refills: nat)
    requires size >= 1 && NeverBreaks(feed.plan) && refills >= Patience(feed)
    requires AttemptOpen(0, feed.rest).answer.Opened?
    ensures var t, o := AttemptOpen(0, feed.rest), Construct(Opening(), size, feed, refills);
            && o.Done? && o.answer == t.answer && Promising(o.m, refills)
            && LogOf(enc, o.m) == Decode(enc, t.timestamp, feed.rest[t.answer.Used()..])
  {
    FairConstruct(size, feed, refills);
    ConstructRefines(size, feed, refills);
  }

  /** Round trip: for every run of a writer that is not reset, every draining, every chunking and every
      initial size of at least 1, the reader opens with the writer's encoding and time zone and the first
      reads return the written events in order with their exact timestamps. If the writer was closed all
      later reads return the end of the stream; if not, the next one does not return. */
  lemma WriteThenRead(
    enc: Encoding, timeZoneId: Bytes, now: Int64, commands: seq<Command>,
    plan: seq<Step>, size: nat, refills: nat, count: nat)
    requires PrintableMetadata(MetadataOf(enc, timeZoneId, now)) && Reset !in commands
    requires size >= 1 && NeverBreaks(plan)
    requires refills >= Patience(Feed(Written(enc, timeZoneId, now, commands), plan))
    ensures var events := Admitted(true, commands);
            var o := Construct(Opening(), size, Feed(Written(enc, timeZoneId, now, commands), plan), refills);
            var answers := Calls(ReadingTo(enc, Every, refills), o.m, count).answers;
            && o.Done? && o.answer == Opened(enc, [], [], timeZoneId, o.answer.Used())
            && |answers| == (if Closes(commands) > 0 then count else Min(count, |events|))
            && (forall i | 0 <= i < |answers| && i < |events| :: Bare(answers[i]) == Got(events[i], 0))
            && (forall i | |events| <= i < |answers| :: answers[i] == Failed(EndOfIr))
  {
    var feed := Feed(Written(enc, timeZoneId, now, commands), plan);
    WrittenStream(enc, timeZoneId, now, commands);
    FairOpen(enc, feed, size, refills);
    FilterEvery(Admitted(true, commands));
    ReadAll(enc, Construct(Opening(), size, feed, refills).m, refills, Every, count);
  }

  /** The same for ReadToFunc: it returns the written events that `f` accepts. */
  lemma WriteThenFilter(
    enc: Encoding, timeZoneId: Bytes, now: Int64, commands: seq<Command>,
    plan: seq<Step>, size: nat, refills: nat, f: Event -> bool, count: nat)
    requires PrintableMetadata(MetadataOf(enc, timeZoneId, now)) && Reset !in commands
    requires size >= 1 && NeverBreaks(plan)
    requires refills >= Patience(Feed(Written(enc, timeZoneId, now, commands), plan))
    ensures var events := Filter(f, Admitted(true, commands));
            var o := Construct(Opening(), size, Feed(Written(enc, timeZoneId, now, commands), plan), refills);
            var answers := Calls(ReadingTo(enc, f, refills), o.m, count).answers;
            && |answers| == (if Closes(commands) > 0 then count else Min(count, |events|))
            && (forall i | 0 <= i < |answers| && i < |events| :: Bare(answers[i]) == Got(events[i], 0))
            && (forall i | |events| <= i < |answers| :: answers[i] == Failed(EndOfIr))
  {
    var feed := Feed(Written(enc, timeZoneId, now, commands), plan);
    WrittenStream(enc, timeZoneId, now, commands);
    FairOpen(enc, feed, size, refills);
    ReadAll(enc, Construct(Opening(), size, feed, refills).m, refills, f, count);
  }

  /** The answers of a run of ReadToFunc(f) on a log that is not corrupt, one by one. */
  lemma ReadAll(enc: Encoding, m: Machine, refills: nat, f: Event -> bool, count: nat)
    requires Promising(m, refills) && !LogOf(enc, m).ending.Corrupted?
    ensures var log := LogOf(enc, m);
            var events, answers := Filter(f, log.events), Calls(ReadingTo(enc, f, refills), m, count).answers;
            && |answers| == (if log.ending.Terminated? then count else Min(count, |events|))
            && (forall i | 0 <= i < |answers| && i < |events| :: Bare(answers[i]) == Got(events[i], 0))
            && (forall i | |events| <= i < |answers| :: answers[i] == Failed(EndOfIr))
  {
    FairCalls(enc, f, m, count, refills);
    GotsAre(Filter(f, LogOf(enc, m).events));
    FollowsIff(Calls(ReadingTo(enc, f, refills), m, count).answers, ReadScript(f, LogOf(enc, m)));
  }

  lemma {:induction false} GotsAre(events: seq<Event>)
    ensures |Gots(events)| == |events|
    ensures forall i | 0 <= i < |events| :: Gots(events)[i] == Got(events[i], 0)
  {
    if events != [] {
      GotsAre(events[1..]);
    }
  }

  /** And for eight-byte searches: they return the written events that lie in the interval and match, with
      their least matching queries, up to the first late event, and then QueryNotFound, or EndOfIr if no
      event is late. If none is late and the writer was not closed, the next search does not return. */
  lemma WriteThenSearch(
    timeZoneId: Bytes, now: Int64, commands: seq<Command>,
    plan: seq<Step>, size: nat, refills: nat, r: Request, count: nat)
    requires PrintableMetadata(MetadataOf(EightByte, timeZoneId, now)) && Reset !in commands
    requires size >= 1 && NeverBreaks(plan)
    requires refills >= Patience(Feed(Written(EightByte, timeZoneId, now, commands), plan))
    ensures var events := Admitted(true, commands);
            var o := Construct(Opening(), size, Feed(Written(EightByte, timeZoneId, now, commands), plan), refills);
            var answers, hits := Calls(SearchingFor(r, EightByte, refills), o.m, count).answers, Hits(r, events);
            var ends := StopsEarly(r, events) || Closes(commands) > 0;
            && |answers| == (if ends then count else Min(count, |hits|))
            && (forall i | 0 <= i < |answers| && i < |hits| :: Bare(answers[i]) == hits[i])
            && (forall i | |hits| <= i < |answers| ::
                  answers[i] == Failed(if StopsEarly(r, events) then QueryNotFound else EndOfIr))
  {
    var feed := Feed(Written(EightByte, timeZoneId, now, commands), plan);
    var o := Construct(Opening(), size, feed, refills);
    WrittenStream(EightByte, timeZoneId, now, commands);
    FairOpen(EightByte, feed, size, refills);
    FairSearches(r, o.m, count, refills);
    FollowsIff(Calls(SearchingFor(r, EightByte, refills), o.m, count).answers, SearchScript(r, LogOf(EightByte, o.m)));
  }

  /** For four-byte searches, after any calls on the reader: the log left is that of the written events not
      consumed yet, moved by the shifts of the searches made, and the next search returns what this log calls
      for once it is moved by the search's own drift, and nothing else. */
  lemma WriteThenSearchAfter(
    timeZoneId: Bytes, now: Int64, commands: seq<Command>, plan: seq<Step>, size: nat, refills: nat,
    calls: seq<Reachable.Command>, r: Request, answer: Answer)
    returns (passed: nat)
    requires PrintableMetadata(MetadataOf(FourByte, timeZoneId, now)) && Reset !in commands && Closes(commands) > 0
    requires size >= 1 && NeverBreaks(plan)
    requires refills >= Patience(Feed(Written(FourByte, timeZoneId, now, commands), plan))
    ensures var events := Admitted(true, commands);
            var o := Construct(Opening(), size, Feed(Written(FourByte, timeZoneId, now, commands), plan), refills);
            var n := Reachable.After(FourByte, calls, o.m);
            && passed <= |events|
            && LogOf(FourByte, n)
               == Shifted(Log(events[passed..], Terminated), LogRuns.ShiftOf(FourByte, calls, o.m))
            && Retry(Searching(r, FourByte), n, refills).Genuine()
            && (Retry(Searching(r, FourByte), n, refills).answer == answer
                <==> IsSearchOf(r, Shifted(LogOf(FourByte, n), SearchDrift(r, n, refills)), n.Remaining(), answer))
  {
    var feed := Feed(Written(FourByte, timeZoneId, now, commands), plan);
    var m := Construct(Opening(), size, feed, refills).m;
    var n := Reachable.After(FourByte, calls, m);
    WrittenStream(FourByte, timeZoneId, now, commands);
    FairOpen(FourByte, feed, size, refills);
    passed := LogRuns.AfterLeaves(FourByte, calls, m);
    Reachable.AfterStaysFair(FourByte, calls, m);
    SearchTerminates(r, FourByte, n, refills);
    SearchLaw(r, n, refills, answer);
  }

  /** Without a close no source, even one that breaks, makes the end visible: reads return at most the written
      events, and exactly these if the source never breaks. */
  lemma UnclosedNeverEnds(
    enc: Encoding, timeZoneId: Bytes, now: Int64, commands: seq<Command>,
    plan: seq<Step>, size: nat, refills: nat, count: nat)
    requires PrintableMetadata(MetadataOf(enc, timeZoneId, now)) && Reset !in commands && Closes(commands) == 0
    requires Construct(Opening(), size, Feed(Written(enc, timeZoneId, now, commands), plan), refills).Genuine()
    ensures var stream, events := Written(enc, timeZoneId, now, commands), Admitted(true, commands);
            var o := Construct(Opening(), size, Feed(stream, plan), refills);
            var answers := Genuine(Calls(ReadingTo(enc, Every, refills), o.m, count).answers);
            && |answers| <= |events|
            && (size >= 1 && NeverBreaks(plan) && refills >= Patience(Feed(stream, plan)) ==>
                  |answers| == Min(count, |events|))
            && (forall i | 0 <= i < |answers| :: Bare(answers[i]) == Got(events[i], 0))
  {
    var events := Admitted(true, commands);
    var feed := Feed(Written(enc, timeZoneId, now, commands), plan);
    var o := Construct(Opening(), size, feed, refills);
    WrittenStream(enc, timeZoneId, now, commands);
    ConstructRefines(size, feed, refills);
    FilterEvery(events);
    GotsAre(events);
    ChunksAreInvisible(enc, o.m, count, refills);
    if size >= 1 && NeverBreaks(plan) && refills >= Patience(feed) {
      FairOpen(enc, feed, size, refills);
      FairReads(enc, o.m, count, refills);
    }
    var answers := Genuine(Calls(ReadingTo(enc, Every, refills), o.m, count).answers);
    var script := StreamScript(LogOf(enc, o.m));
    FollowsBounded(answers, script);
    FollowsIff(answers, script);
  }
}
