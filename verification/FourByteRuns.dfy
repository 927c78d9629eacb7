/**
 Runs of the same four-byte search once everything up to the end of the stream has arrived: every search then
 answers at once, and what it answers is told by the log alone.
 */
module FourByteRuns {
  import opened Base
  import opened FrameCodec
  import opened WholeStream
  import opened TimedSearch
  import opened RetryLoop
  import opened DecodingCalls
  import opened Runs
  import opened ReaderRuns
  import opened SearchRuns
  import opened FourByteSearch
  import opened FourByteState

  /** How many events a search passes before it stops. */
  function Stop(r: Request, events: seq<Event>): (i: nat)
    ensures i <= |events|
  {
    if events == [] || r.Late(events[0]) || r.Hit(events[0]) then 0 else 1 + Stop(r, events[1..])
  }

  /** The timestamp of the event a search stops at, or of the last one. */
  function StopStamp(r: Request, log: Log, base: Int64): Int64 {
    var i := Stop(r, log.events);
    if i < |log.events| then log.events[i].timestamp else LastTimestamp(base, log.events)
  }

  /** What one search answers, positions aside. */
  function StopAnswer(r: Request, log: Log): Answer {
    var i := Stop(r, log.events);
    if i == |log.events| then Failed(EndingError(log.ending))
    else if r.Late(log.events[i]) then Failed(QueryNotFound)
    else Matched(log.events[i], 0, r.FirstMatch(log.events[i].message, 0))
  }

  /** The log one search leaves, if it has started from timestamp `base`: behind a match the rest, otherwise the
      whole of it, moved from the starting timestamp to the one the search stopped at. */
  function StopLog(r: Request, log: Log, base: Int64): Log {
    if StopAnswer(r, log).Failed? then Shifted(log, StopStamp(r, log, base) - base)
    else Log(log.events[Stop(r, log.events) + 1..], log.ending)
  }

  /** The answers of `count` searches, one after the other. */
  function Replay(r: Request, log: Log, base: Int64, count: nat): seq<Answer>
    decreases count
  {
    if count == 0 then []
    else [StopAnswer(r, log)] + Replay(r, StopLog(r, log, base), StopStamp(r, log, base), count - 1)
  }

  function BareAll(answers: seq<Answer>): seq<Answer> {
    if answers == [] then [] else [Bare(answers[0])] + BareAll(answers[1..])
  }

  // ----- One scan -----

  lemma StopBehind(r: Request, event: Event, rest: Log, base: Int64)
    requires !r.Late(event) && !r.Hit(event)
    ensures var log := Log([event] + rest.events, rest.ending);
            && Stop(r, log.events) == 1 + Stop(r, rest.events)
            && StopAnswer(r, log) == StopAnswer(r, rest)
            && StopStamp(r, log, base) == StopStamp(r, rest, event.timestamp)
            && (!StopAnswer(r, log).Failed? ==>
                  log.events[Stop(r, log.events) + 1..] == rest.events[Stop(r, rest.events) + 1..])
  {
    assert ([event] + rest.events)[1..] == rest.events;
  }

  lemma StopHere(r: Request, event: Event, rest: Log, base: Int64)
    requires r.Late(event) || r.Hit(event)
    ensures var log := Log([event] + rest.events, rest.ending);
            && StopStamp(r, log, base) == event.timestamp
            && StopAnswer(r, log) == (if r.Late(event) then Failed(QueryNotFound)
                                      else Matched(event, 0, r.FirstMatch(event.message, 0)))
  {
  }

  /** One event in front of what an inner scan comes to. */
  lemma StopsBehind(r: Request, event: Event, size: nat, inner: Try, rest: Log, base: Int64)
    requires Bare(inner.answer) == StopAnswer(r, rest) && inner.timestamp == StopStamp(r, rest, event.timestamp)
    ensures var log, t := Log([event] + rest.events, rest.ending), Behind(r, event, size, inner);
            Bare(t.answer) == StopAnswer(r, log) && t.timestamp == StopStamp(r, log, base)
  {
    if r.Late(event) || r.Hit(event) {
      StopHere(r, event, rest, base);
    } else {
      StopBehind(r, event, rest, base);
    }
  }

  /** A scan answers and stops as the log says. */
  lemma {:induction false} ScanStops(r: Request, base: Int64, s: Bytes)
    ensures var log, t := Decode(FourByte, base, s), Scan(r, FourByte, base, s);
            Bare(t.answer) == StopAnswer(r, log) && t.timestamp == StopStamp(r, log, base)
    decreases |s|
  {
    var frame := Parse(s);
    if frame.Frame? {
      var event, tail := Event(frame.message, Advance(base, frame.field)), s[frame.size..];
      ScanStep(r, FourByte, base, s, event, frame.size);
      ScanStops(r, event.timestamp, tail);
      StopsBehind(r, event, frame.size, Scan(r, FourByte, event.timestamp, tail),
                  Decode(FourByte, event.timestamp, tail), base);
    }
  }

  lemma {:induction false} StopIsSettled(r: Request, events: seq<Event>, i: nat)
    requires i < |events| && Passed(r, events, i) && (r.Hit(events[i]) || r.Late(events[i]))
    ensures Stop(r, events) == i
    decreases i
  {
    if i > 0 {
      assert !r.Hit(events[0]) && !r.Late(events[0]);
      assert forall j | 0 <= j < i - 1 :: events[1..][j] == events[j + 1];
      StopIsSettled(r, events[1..], i - 1);
    }
  }

  /** What the scan leaves decodes to the log the search leaves. */
  lemma ScanLeaves(r: Request, base: Int64, s: Bytes)
    ensures var log, t := Decode(FourByte, base, s), Scan(r, FourByte, base, s);
            Decode(FourByte, t.timestamp, s[t.answer.Used()..]) == StopLog(r, log, base)
  {
    var log, t := Decode(FourByte, base, s), Scan(r, FourByte, base, s);
    ScanStops(r, base, s);
    if t.answer.Matched? {
      var passed := DropMatch(r, base, s);
      StopIsSettled(r, log.events, passed - 1);
    } else {
      var shift := t.timestamp - base;
      WrapUnique(base + shift, t.timestamp, 0);
      ShiftedDecode(base, shift, s);
      assert s[0..] == s;
    }
  }

  // ----- Runs -----

  /** The end of the stream is in the window. */
  predicate Arrived(m: Machine) {
    m.Valid() && !Decode(FourByte, m.timestamp, m.window).ending.Truncated?
  }

  /** What a scan of an arrived stream leaves in the window still holds its end. */
  lemma ArrivedStays(r: Request, base: Int64, s: Bytes)
    requires !Decode(FourByte, base, s).ending.Truncated?
    ensures var t := Scan(r, FourByte, base, s);
            !Decode(FourByte, t.timestamp, s[t.answer.Used()..]).ending.Truncated?
  {
    ScanLeaves(r, base, s);
  }

  /** One search of an arrived stream: its answer and the state it leaves are those the log calls for. */
  lemma ArrivedSearch(r: Request, m: Machine, refills: nat)
    requires Arrived(m)
    ensures var o, log := Retry(Searching(r, FourByte), m, refills), LogOf(FourByte, m);
            && o.Genuine() && Bare(o.answer) == StopAnswer(r, log) && Arrived(o.m)
            && o.m.timestamp == StopStamp(r, log, m.timestamp)
            && LogOf(FourByte, o.m) == StopLog(r, log, m.timestamp)
  {
    EndSettlesAll(r, m.timestamp, m.timestamp, m.window);
    SettledSearch(r, m, refills);
    RetryConserves(Searching(r, FourByte), m, refills);
    ScanStops(r, m.timestamp, m.Remaining());
    ScanLeaves(r, m.timestamp, m.Remaining());
    ArrivedStays(r, m.timestamp, m.window);
    assert m.window[0..] == m.window;
  }

  lemma ReplayStep(r: Request, log: Log, base: Int64, first: Answer, rest: seq<Answer>, all: seq<Answer>)
    requires Bare(first) == StopAnswer(r, log) && all == [first] + rest
    requires BareAll(rest) == Replay(r, StopLog(r, log, base), StopStamp(r, log, base), |rest|)
    ensures BareAll(all) == Replay(r, log, base, |all|)
  {
    assert all[1..] == rest;
  }

  /** Every call answers and leaves what its machine's log calls for. */
  ghost predicate Replays(call: Caller, good: Machine -> bool, r: Request, log: Machine -> Log) {
    forall m: Machine {:trigger call(m)} | good(m) ::
      && call(m).Done? && good(call(m).m) && Bare(call(m).answer) == StopAnswer(r, log(m))
      && call(m).m.timestamp == StopStamp(r, log(m), m.timestamp)
      && log(call(m).m) == StopLog(r, log(m), m.timestamp)
  }

  lemma {:induction false} CallsReplay(
    call: Caller, good: Machine -> bool, r: Request, log: Machine -> Log, m: Machine, count: nat)
    requires Replays(call, good, r, log) && good(m)
    ensures var answers := Calls(call, m, count).answers;
            |answers| == count && BareAll(answers) == Replay(r, log(m), m.timestamp, count)
    decreases count
  {
    if count > 0 {
      var o := call(m);
      CallsReplay(call, good, r, log, o.m, count - 1);
      ReplayStep(r, log(m), m.timestamp, o.answer, Calls(call, o.m, count - 1).answers, Calls(call, m, count).answers);
    }
  }

  /** Runs: on an arrived stream every search of a run returns, with exactly the answers the log calls for, for
      ever: matches leave the timestamps alone, and each failure moves those of the whole log left. */
  lemma SearchesReplay(r: Request, m: Machine, count: nat, refills: nat)
    requires Arrived(m)
    ensures var answers := Calls(SearchingFor(r, FourByte, refills), m, count).answers;
            |answers| == count && BareAll(answers) == Replay(r, LogOf(FourByte, m), m.timestamp, count)
  {
    var call, log := SearchingFor(r, FourByte, refills), (m: Machine) => LogOf(FourByte, m);
    var good := (m: Machine) => Arrived(m);
    forall m: Machine | good(m)
      ensures call(m).Done? && good(call(m).m) && Bare(call(m).answer) == StopAnswer(r, log(m))
      ensures call(m).m.timestamp == StopStamp(r, log(m), m.timestamp)
      ensures log(call(m).m) == StopLog(r, log(m), m.timestamp)
    {
      ArrivedSearch(r, m, refills);
    }
    CallsReplay(call, good, r, log, m, count);
  }

  lemma {:induction false} HitsStop(r: Request, events: seq<Event>)
    ensures var i := Stop(r, events);
            Hits(r, events)
            == (if i < |events| && r.Hit(events[i]) then
                  [Matched(events[i], 0, r.FirstMatch(events[i].message, 0))] + Hits(r, events[i + 1..])
                else [])
    ensures StopsEarly(r, events) && Hits(r, events) == []
            <==> Stop(r, events) < |events| && r.Late(events[Stop(r, events)])
  {
    if events != [] && !r.Late(events[0]) && !r.Hit(events[0]) {
      HitsStop(r, events[1..]);
      var i := Stop(r, events[1..]);
      assert i < |events[1..]| ==> events[1..][i + 1..] == events[i + 2..];
    } else if events != [] {
      assert events[0 + 1..] == events[1..];
    }
  }

  /** The first answers of a run are the hits before the first late event, in order and with their least
      matching queries, as in an eight-byte stream. */
  lemma {:induction false} ReplayBeginsWithHits(r: Request, log: Log, base: Int64, count: nat)
    requires count <= |Hits(r, log.events)|
    ensures Replay(r, log, base, count) == Hits(r, log.events)[..count]
    decreases count
  {
    if count > 0 {
      HitsStop(r, log.events);
      var rest := Hits(r, log.events[Stop(r, log.events) + 1..]);
      ReplayBeginsWithHits(r, StopLog(r, log, base), StopStamp(r, log, base), count - 1);
      assert Hits(r, log.events)[..count] == [Hits(r, log.events)[0]] + rest[..count - 1];
    }
  }
}
