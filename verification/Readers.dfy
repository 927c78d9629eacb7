/**
 The buffered reader. Its bytes live in an array that is compacted in place or doubled; every method
 is proved to do what the loop on values in RetryLoop.dfy does.
 */
module Readers {
  import opened Base
  import opened WildcardQuery
  import opened TimedSearch
  import opened RetryLoop
  import opened DecodingCalls
  import opened ReaderRuns
  import opened SearchRuns
  import opened ReaderResults
  import opened Deserializers

  /** An io.Reader: what it has not delivered yet and how it will answer the reads to come. */
  class Source {
    var rest: Bytes
    var plan: seq<Step>

    constructor (stream: Bytes, plan: seq<Step>)
      ensures Feed() == RetryLoop.Feed(stream, plan)
    {
      this.rest, this.plan := stream, plan;
    }

    function Feed(): Feed
      reads this
    {
      RetryLoop.Feed(rest, plan)
    }

    /** Fills some of `p[from..]`. */
    method Read(p: array<Byte>, from: nat) returns (n: nat, status: SourceStatus)
      requires from <= p.Length
      modifies this, p
      ensures from + n <= p.Length
      ensures Deliver(old(Feed()), p.Length - from) == Delivery(p[from..from + n], status, Feed())
      ensures status.Broken? <==> old(plan) != [] && old(plan[0].status).Broken?
      ensures status.Broken? ==> status == old(plan[0].status)
      ensures p[..from] == old(p[..from])
    {
      n := Min(p.Length - from, |rest|);
      if plan == [] {
        status := if rest == [] then EndOfFile else Fine;
      } else {
        n := Min(plan[0].count, n);
        status := plan[0].status;
        plan := plan[1..];
      }
      forall i | 0 <= i < n {
        p[from + i] := rest[i];
      }
      rest := rest[n..];
    }
  }

  /** `copy(buf, buf[start:end])`: source and destination may overlap. */
  method CopyDown(buf: array<Byte>, start: nat, end: nat)
    requires start <= end <= buf.Length
    modifies buf
    ensures buf[..end - start] == old(buf[start..end])
  {
    for i := 0 to end - start
      invariant forall j | 0 <= j < i :: buf[j] == old(buf[start + j])
      invariant forall j | i <= j < buf.Length :: buf[j] == old(buf[j])
    {
      buf[i] := buf[start + i];
    }
  }

  class Reader {
    var deserializer: Deserializer?
    const source: Source
    var buf: array<Byte>
    var start: nat
    var end: nat
    /** The reader as the machine of RetryLoop.dfy. */
    ghost var machine: Machine

    constructor (source: Source, size: nat)
      ensures this.source == source && deserializer == null && start == 0
      ensures Valid() && fresh(buf)
      ensures machine == Machine(0, [], size, source.Feed())
    {
      this.deserializer, this.source := null, source;
      this.buf := new Byte[size](_ => 0);
      this.start, this.end := 0, 0;
      this.machine := Machine(0, [], size, source.Feed());
    }

    /** The window lies in the buffer, and the fields are the machine's. */
    ghost predicate Valid()
      reads this, buf, source, deserializer
    {
      match machine
      case Machine(timestamp, window, capacity, feed) =>
        && start <= end <= buf.Length
        && timestamp == (if deserializer == null then 0 else deserializer.timestamp)
        && window == buf[start..end]
        && capacity == buf.Length
        && feed == source.Feed()
    }

    /** Still this reader: the same deserializer, and no array but its own or a new one. */
    twostate predicate Same()
      reads this
    {
      deserializer == old(deserializer) && (buf == old(buf) || fresh(buf))
    }

    /** Reads into the free part of the buffer; an EOF is dropped. */
    method ReadSource() returns (n: nat, status: SourceStatus)
      requires Valid()
      modifies `end, `machine, buf, source
      ensures Valid() && end == old(end) + n
      ensures var d := Deliver(old(machine.feed), old(buf.Length - end));
              && n == |d.data|
              && status == (if d.status.Broken? then d.status else Fine)
              && machine == old(machine).(window := old(machine.window) + d.data, feed := d.feed)
      ensures status == if old(source.plan) != [] && old(source.plan[0].status).Broken? then old(source.plan[0].status)
                        else Fine
    {
      ghost var before, d := buf[..end], Deliver(machine.feed, buf.Length - end);
      n, status := source.Read(buf, end);
      assert before[start..] == machine.window;
      assert buf[start..end + n] == buf[..end][start..] + buf[end..end + n] == machine.window + d.data;
      machine := machine.(window := machine.window + d.data, feed := d.feed);
      end := end + n;
      if !status.Broken? {
        status := Fine;
      }
    }

    /** Moves the window to the front of the buffer, doubling the buffer first if more than half of it
        is unconsumed. */
    method Compact()
      requires Valid()
      modifies this, buf
      ensures Valid() && Same() && start == 0
      ensures machine == old(machine).(capacity := Grown(old(machine)))
      ensures buf[..end] == old(buf[start..end])
      ensures buf.Length == if old(end - start) > old(buf.Length) / 2 then 2 * old(buf.Length) else old(buf.Length)
    {
      if end - start > buf.Length / 2 {
        var bigger := new Byte[buf.Length * 2](_ => 0);
        forall i | 0 <= i < end - start {
          bigger[i] := buf[start + i];
        }
        assert bigger[..end - start] == machine.window;
        buf := bigger;
      } else {
        CopyDown(buf, start, end);
      }
      end := end - start;
      start := 0;
      machine := machine.(capacity := buf.Length);
    }

    /** Compacts the buffer and reads into its free part, once. */
    method FillBuf() returns (n: nat, status: SourceStatus)
      requires Valid()
      modifies this, buf, source
      ensures Valid() && Same() && start == 0
      ensures var r := Refill(old(machine));
              machine == r.m && status == (if r.status.Broken? then r.status else Fine)
      ensures buf[..end] + source.rest == old(buf[start..end]) + old(source.rest) && end == old(end - start) + n
      ensures buf.Length == if old(end - start) > old(buf.Length) / 2 then 2 * old(buf.Length) else old(buf.Length)
      ensures status == if old(source.plan) != [] && old(source.plan[0].status).Broken? then old(source.plan[0].status)
                        else Fine
    {
      RefillConserves(machine);
      Compact();
      n, status := ReadSource();
    }

    /** The deserializer's call on the window. */
    method DeserializeLogEvent(ghost f: Decoder) returns (answer: Answer)
      requires Valid() && deserializer != null && Reads(f, deserializer.enc)
      modifies `machine, deserializer
      ensures Valid()
      ensures Try(answer, machine.timestamp) == f(old(machine.timestamp), machine.window)
      ensures machine == Stamped(old(machine), machine.timestamp)
    {
      answer := deserializer.DeserializeLogEvent(buf[start..end]);
      machine := Stamped(machine, deserializer.timestamp);
    }

    /** The deserializer's search on the window. */
    method DeserializeWildcardMatch(
      ghost queries: seq<Query>, merged: MergedQuery, interval: Interval, matches: Matcher, ghost f: Decoder)
      returns (answer: Answer)
      requires Valid() && deserializer != null && merged == Merge(queries)
      requires Searches(f, Request(queries, interval, matches), deserializer.enc)
      modifies `machine, deserializer
      ensures Valid()
      ensures Try(answer, machine.timestamp) == f(old(machine.timestamp), machine.window)
      ensures machine == Stamped(old(machine), machine.timestamp)
    {
      SplitUndoesMerge(queries);
      answer := deserializer.DeserializeWildcardMatch(buf[start..end], interval, merged, matches);
      machine := Stamped(machine, deserializer.timestamp);
    }

    /** Moves `start` over the bytes of an answer; errors use none. */
    method Consume(answer: Answer)
      requires Valid() && answer.Used() <= |machine.window|
      modifies `start, `machine
      ensures Valid() && machine == Consumed(old(machine), answer)
    {
      if answer.Failed? {
        return;
      }
      assert buf[start..end][answer.pos..] == buf[start + answer.pos..end];
      start := start + answer.pos;
      machine := Consumed(machine, answer);
    }

    /** The rest of a turn: a refill if the attempt ran out of bytes. The loop goes on if it succeeds. */
    method RefillIfIncomplete(
      attempt: Answer, ghost f: Decoder, ghost m: Machine, ghost fuel: nat, ghost outcome: Outcome)
      returns (answer: Answer)
      requires Valid() && Gives(f, m, fuel, outcome)
      requires Try(attempt, machine.timestamp) == f(m.timestamp, m.window) && machine == Stamped(m, machine.timestamp)
      modifies this, buf, source
      ensures Valid() && Same()
      ensures if attempt == Failed(IncompleteIr) then answer.Failed? else answer == attempt
      ensures answer == Failed(IncompleteIr) ==>
                fuel > 0 && start == 0 && Gives(f, machine, fuel - 1, outcome)
      ensures answer != Failed(IncompleteIr) ==>
                answer.Used() <= |machine.window| && outcome == Done(answer, Consumed(machine, answer))
    {
      answer := attempt;
      if attempt == Failed(IncompleteIr) {
        var n, status := FillBuf();
        if status.Broken? {
          answer := Failed(SourceError(status.code));
        }
      }
    }

    /** Reads the next event. `refills` bounds the refills needed; the loop returns if there is one. */
    method Read(ghost f: Decoder, ghost refills: nat) returns (r: Result<Event>)
      requires Valid() && deserializer != null && Reads(f, deserializer.enc)
      requires Retry(f, machine, refills).Done?
      modifies this, buf, source, deserializer
      ensures Valid() && Same()
      ensures Retry(f, old(machine), refills).m == machine
      ensures EventOf(Retry(f, old(machine), refills).answer) == r
      ensures ReadTells(deserializer.enc, old(machine), machine, r)
    {
      ghost var fuel := refills;
      ghost var outcome := Retry(f, machine, refills);
      GivesIffReturns(f, machine, refills, outcome);
      var answer;
      while true
        invariant Valid() && Same()
        invariant Gives(f, machine, fuel, outcome)
        decreases fuel
      {
        ghost var m := machine;
        answer := DeserializeLogEvent(f);
        answer := RefillIfIncomplete(answer, f, m, fuel, outcome);
        if answer != Failed(IncompleteIr) {
          break;
        }
        fuel := fuel - 1;
      }
      Consume(answer);
      r := EventOf(answer);
      ReadReturns(f, deserializer.enc, old(machine), refills);
    }

    /** Reads to the next event in the interval that some query matches, and the query's index. */
    method ReadToWildcardMatchWithTimeInterval(
      queries: seq<Query>, interval: Interval, matches: Matcher, ghost f: Decoder, ghost refills: nat)
      returns (r: Result<(Event, nat)>)
      requires Valid() && deserializer != null
      requires Searches(f, Request(queries, interval, matches), deserializer.enc)
      requires Retry(f, machine, refills).Done?
      modifies this, buf, source, deserializer
      ensures Valid() && Same()
      ensures Retry(f, old(machine), refills).m == machine
      ensures MatchOf(Retry(f, old(machine), refills).answer) == r
      ensures var request, enc := Request(queries, interval, matches), deserializer.enc;
              var drift := DriftOf(request, enc, old(machine), refills);
              var shift := ShiftBy(request, enc, old(machine), refills);
              exists passed: nat :: SearchTells(request, enc, old(machine), machine, drift, shift, r, passed)
    {
      var merged := MergeWildcardQueries(queries);
      ghost var fuel := refills;
      ghost var outcome := Retry(f, machine, refills);
      GivesIffReturns(f, machine, refills, outcome);
      var answer;
      while true
        invariant Valid() && Same()
        invariant Gives(f, machine, fuel, outcome)
        decreases fuel
      {
        ghost var m := machine;
        answer := DeserializeWildcardMatch(queries, merged, interval, matches, f);
        answer := RefillIfIncomplete(answer, f, m, fuel, outcome);
        if answer != Failed(IncompleteIr) {
          break;
        }
        fuel := fuel - 1;
      }
      Consume(answer);
      r := MatchOf(answer);
      ghost var passed :=
        SearchReturns(f, Request(queries, interval, matches), deserializer.enc, old(machine), refills, outcome);
    }

    /** Searches all timestamps from 0 up to the largest one. */
    method ReadToWildcardMatch(queries: seq<Query>, matches: Matcher, ghost f: Decoder, ghost refills: nat)
      returns (r: Result<(Event, nat)>)
      requires Valid() && deserializer != null
      requires Searches(f, Request(queries, WHOLE_TIME, matches), deserializer.enc)
      requires Retry(f, machine, refills).Done?
      modifies this, buf, source, deserializer
      ensures Valid() && Same()
      ensures Retry(f, old(machine), refills).m == machine
      ensures MatchOf(Retry(f, old(machine), refills).answer) == r
      ensures var request, enc := Request(queries, Interval(0, 0x7FFF_FFFF_FFFF_FFFF), matches), deserializer.enc;
              var drift := DriftOf(request, enc, old(machine), refills);
              var shift := ShiftBy(request, enc, old(machine), refills);
              exists passed: nat :: SearchTells(request, enc, old(machine), machine, drift, shift, r, passed)
    {
      r := ReadToWildcardMatchWithTimeInterval(queries, WHOLE_TIME, matches, f, refills);
    }

    /** Reads until `f` accepts an event. Each read may take up to `refills` refills. */
    method ReadToFunc(f: Event -> bool, ghost refills: nat) returns (r: Result<Event>)
      requires Valid() && deserializer != null
      requires ReadTo(deserializer.enc, f, machine, refills).Done?
      modifies this, buf, source, deserializer
      ensures Valid() && Same()
      ensures var o := ReadTo(deserializer.enc, f, old(machine), refills);
              machine == o.m && r == EventOf(o.answer)
      ensures exists passed: nat :: FindTells(deserializer.enc, f, old(machine), machine, r, passed)
    {
      ghost var outcome := ReadTo(deserializer.enc, f, machine, refills);
      ghost var passed := FindReturns(deserializer.enc, f, machine, refills, outcome);
      while true
        invariant Valid() && Same()
        invariant ReadTo(deserializer.enc, f, machine, refills) == outcome
        decreases |machine.Remaining()|
      {
        ReadConsumes(deserializer.enc, machine, refills);
        var event := Read(Reading(deserializer.enc), refills);
        if event.Failure? {
          return event;
        }
        if f(event.value) {
          return event;
        }
      }
    }

    /** DeserializePreamble on the window; `start` is assigned, not advanced. */
    method DeserializePreamble(ghost f: Decoder) returns (answer: Answer)
      requires Valid() && deserializer == null && start == 0 && Opens(f)
      modifies this
      ensures Valid() && buf == old(buf)
      ensures Try(answer, machine.timestamp) == f(old(machine.timestamp), old(machine.window))
      ensures answer.Opened? ==>
                && deserializer != null && fresh(deserializer)
                && deserializer.enc == answer.enc && deserializer.pattern == answer.pattern
                && deserializer.patternSyntax == answer.patternSyntax
                && deserializer.timeZoneId == answer.timeZoneId
      ensures answer.Failed? ==> deserializer == null && start == 0
      ensures answer.Opened? || answer.Failed?
      ensures machine == Consumed(Stamped(old(machine), machine.timestamp), answer)
    {
      deserializer, answer := Deserializers.DeserializePreamble(buf[start..end]);
      start := answer.Used();
      machine := Consumed(Stamped(machine, if deserializer == null then 0 else deserializer.timestamp), answer);
    }
  }

  /** Makes a reader over `source` with a buffer of `size` bytes and reads the preamble. */
  method NewReaderSize(source: Source, size: nat, ghost f: Decoder, ghost refills: nat)
    returns (reader: Reader?, error: Option<Error>)
    requires Opens(f) && Construct(f, size, source.Feed(), refills).Done?
    modifies source
    ensures source.Feed() == Construct(f, size, old(source.Feed()), refills).m.feed
    ensures var answer := Construct(f, size, old(source.Feed()), refills).answer;
            && (answer.Failed? ==> reader == null && error == Some(answer.error))
            && (answer.Opened? ==>
                  && error == None && reader != null && fresh(reader) && fresh(reader.buf)
                  && reader.source == source && reader.Valid()
                  && reader.machine == Construct(f, size, old(source.Feed()), refills).m
                  && reader.deserializer != null && fresh(reader.deserializer)
                  && reader.deserializer.enc == answer.enc
                  && reader.deserializer.pattern == answer.pattern
                  && reader.deserializer.patternSyntax == answer.patternSyntax
                  && reader.deserializer.timeZoneId == answer.timeZoneId)
    ensures reader != null <==> error == None
    ensures error.Some? ==> FailureToOpen(old(source.Feed()), source.Feed(), error.value)
    ensures reader != null ==>
              SuccessToOpen(old(source.Feed()), reader.machine, Construct(f, size, old(source.Feed()), refills).answer)
    ensures old(source.plan) != [] && old(source.plan[0].status).Broken? ==>
              error == Some(SourceError(old(source.plan[0].status).code))
  {
    BuiltReturns(f, size, source.Feed(), refills);
    var irr := new Reader(source, size);
    var n, status := irr.ReadSource();
    if status.Broken? {
      return null, Some(SourceError(status.code));
    }
    ghost var fuel := refills;
    ghost var outcome := Construct(f, size, old(source.Feed()), refills);
    assert irr.machine.window == Deliver(old(source.Feed()), size).data;
    GivesIffReturns(f, irr.machine, refills, outcome);
    var answer;
    while true
      invariant irr.Valid() && irr.start == 0 && fresh(irr.buf)
      invariant irr.deserializer == null
      invariant Gives(f, irr.machine, fuel, outcome)
      decreases fuel
    {
      ghost var m := irr.machine;
      answer := irr.DeserializePreamble(f);
      if answer != Failed(IncompleteIr) {
        break;
      }
      answer := irr.RefillIfIncomplete(answer, f, m, fuel, outcome);
      if answer != Failed(IncompleteIr) {
        break;
      }
      fuel := fuel - 1;
    }
    if answer.Failed? {
      return null, Some(answer.error);
    }
    return irr, None;
  }
}
