/**
 The meaning of a stream's bytes after the preamble: the events they carry and how they end. Nothing
 here knows about buffers, refills or retries.
 */
module WholeStream {
  import opened Base
  import opened FrameCodec

  datatype Ending = Terminated | Corrupted | Truncated

  datatype Log = Log(events: seq<Event>, ending: Ending)

  /** Decodes `s` in one go, starting from timestamp `base`. */
  function Decode(enc: Encoding, base: Int64, s: Bytes): Log
    decreases |s|
  {
    match Parse(s)
    case Incomplete => Log([], Truncated)
    case Corrupt => Log([], Corrupted)
    case Eof => Log([], Terminated)
    case Frame(field, message, size) =>
      var timestamp := Stamp(enc, base, field);
      var rest := Decode(enc, timestamp, s[size..]);
      Log([Event(message, timestamp)] + rest.events, rest.ending)
  }

  /** What is left of `s` after its first `count` frames. */
  function Skip(s: Bytes, count: nat): (rest: Bytes)
    ensures |rest| <= |s|
  {
    if count > 0 && Parse(s).Frame? then Skip(s[Parse(s).size..], count - 1) else s
  }

  /** The deserializer's timestamp once the first `count` events have been read. */
  function BaseAfter(log: Log, base: Int64, count: nat): Int64
    requires count <= |log.events|
  {
    if count == 0 then base else log.events[count - 1].timestamp
  }

  /** Decoding can be resumed after any number of frames. */
  lemma {:induction false} DecodeResumes(enc: Encoding, base: Int64, s: Bytes, count: nat)
    requires count <= |Decode(enc, base, s).events|
    ensures Decode(enc, BaseAfter(Decode(enc, base, s), base, count), Skip(s, count))
            == Log(Decode(enc, base, s).events[count..], Decode(enc, base, s).ending)
    decreases count
  {
    var log := Decode(enc, base, s);
    if count > 0 {
      var frame := Parse(s);
      var timestamp := Stamp(enc, base, frame.field);
      var rest := Decode(enc, timestamp, s[frame.size..]);
      DecodeResumes(enc, timestamp, s[frame.size..], count - 1);
      assert log.events[count..] == rest.events[count - 1..];
      assert BaseAfter(log, base, count) == BaseAfter(rest, timestamp, count - 1);
    }
  }

  lemma {:induction false} SkipAdds(s: Bytes, first: nat, second: nat)
    ensures Skip(Skip(s, first), second) == Skip(s, first + second)
    decreases first
  {
    if first > 0 && Parse(s).Frame? {
      SkipAdds(s[Parse(s).size..], first - 1, second);
    }
  }

  /** What is left is a suffix. */
  lemma {:induction false} SkipIsSuffix(s: Bytes, count: nat)
    ensures Skip(s, count) == s[|s| - |Skip(s, count)|..]
    decreases count
  {
    if count > 0 && Parse(s).Frame? {
      var tail := s[Parse(s).size..];
      SkipIsSuffix(tail, count - 1);
      assert tail[|tail| - |Skip(s, count)|..] == s[|s| - |Skip(s, count)|..];
    }
  }

  /** Absolute timestamps do not depend on the base. */
  lemma EightByteLog(one: Int64, two: Int64, s: Bytes)
    ensures Decode(EightByte, one, s) == Decode(EightByte, two, s)
  {
  }

  /** How a stream ends does not depend on timestamps. */
  lemma {:induction false} EndingIgnoresBase(enc: Encoding, one: Int64, two: Int64, s: Bytes)
    ensures Decode(enc, one, s).ending == Decode(enc, two, s).ending
    decreases |s|
  {
    var frame := Parse(s);
    if frame.Frame? {
      EndingIgnoresBase(enc, Stamp(enc, one, frame.field), Stamp(enc, two, frame.field), s[frame.size..]);
    }
  }

  /** The same log with every timestamp moved by `shift`, modulo 2^64. */
  function Shifted(log: Log, shift: int): Log {
    Log(ShiftedEvents(log.events, shift), log.ending)
  }

  function ShiftedEvent(event: Event, shift: int): Event {
    Event(event.message, Wrap64(event.timestamp + shift))
  }

  function ShiftedEvents(events: seq<Event>, shift: int): (r: seq<Event>)
    ensures |r| == |events|
  {
    if events == [] then [] else [ShiftedEvent(events[0], shift)] + ShiftedEvents(events[1..], shift)
  }

  /** Moving a four-byte stream's base moves every timestamp by the same amount, modulo 2^64, and
      changes nothing else. */
  lemma {:induction false} ShiftedDecode(base: Int64, shift: int, s: Bytes)
    ensures Decode(FourByte, Wrap64(base + shift), s) == Shifted(Decode(FourByte, base, s), shift)
    decreases |s|
  {
    var frame := Parse(s);
    if frame.Frame? {
      var timestamp := Advance(base, frame.field);
      var rest := Decode(FourByte, timestamp, s[frame.size..]);
      AdvanceShifts(base, shift, frame.field);
      ShiftedDecode(timestamp, shift, s[frame.size..]);
      assert ([Event(frame.message, timestamp)] + rest.events)[1..] == rest.events;
    }
  }

  lemma {:induction false} ShiftedEventsAdd(events: seq<Event>, first: int, second: int)
    ensures ShiftedEvents(ShiftedEvents(events, first), second) == ShiftedEvents(events, first + second)
  {
    if events != [] {
      WrapTwice(events[0].timestamp, first, second);
      ShiftedEventsAdd(events[1..], first, second);
      assert ShiftedEvents(events, first)[1..] == ShiftedEvents(events[1..], first);
    }
  }

  /** Two shifts are one. */
  lemma ShiftedAdds(log: Log, first: int, second: int)
    ensures Shifted(Shifted(log, first), second) == Shifted(log, first + second)
  {
    ShiftedEventsAdd(log.events, first, second);
  }

  lemma {:induction false} ShiftedEventsRest(events: seq<Event>, shift: int, passed: nat)
    requires passed <= |events|
    ensures ShiftedEvents(events, shift)[passed..] == ShiftedEvents(events[passed..], shift)
    decreases passed
  {
    if passed == 0 {
      assert events[0..] == events;
    } else {
      ShiftedEventsRest(events[1..], shift, passed - 1);
      assert ShiftedEvents(events, shift)[passed..] == ShiftedEvents(events[1..], shift)[passed - 1..];
      assert events[passed..] == events[1..][passed - 1..];
    }
  }

  /** A shift of what is left of a log is what is left of the shifted log. */
  lemma ShiftedRest(log: Log, shift: int, passed: nat)
    requires passed <= |log.events|
    ensures Log(Shifted(log, shift).events[passed..], log.ending)
            == Shifted(Log(log.events[passed..], log.ending), shift)
  {
    ShiftedEventsRest(log.events, shift, passed);
  }

  lemma ShiftedEventSameIff(event: Event, shift: int)
    ensures ShiftedEvent(event, shift) == event <==> Wrap64(shift) == 0
  {
    ShiftVanishesIff(event.timestamp, shift, Wrap64(event.timestamp + shift));
  }

  lemma {:induction false} ShiftedEventsSame(events: seq<Event>, shift: int)
    requires Wrap64(shift) == 0
    ensures ShiftedEvents(events, shift) == events
  {
    if events != [] {
      ShiftedEventSameIff(events[0], shift);
      ShiftedEventsSame(events[1..], shift);
    }
  }

  /** A shift cannot be seen exactly if there is no event left or it is a multiple of 2^64. */
  lemma ShiftedSameIff(log: Log, shift: int)
    ensures Shifted(log, shift) == log <==> log.events == [] || Wrap64(shift) == 0
  {
    if Wrap64(shift) == 0 {
      ShiftedEventsSame(log.events, shift);
    } else if log.events != [] {
      ShiftedEventSameIff(log.events[0], shift);
      assert ShiftedEvents(log.events, shift)[0] == ShiftedEvent(log.events[0], shift);
    }
  }

  lemma {:induction false} ShiftedByZero(events: seq<Event>)
    ensures ShiftedEvents(events, 0) == events
  {
    if events != [] {
      ShiftedByZero(events[1..]);
    }
  }

  /** The sum of the differences stored in the complete frames at the front of `s`. */
  function DeltaSum(s: Bytes): int
    decreases |s|
  {
    match Parse(s)
    case Frame(field, _, size) => field + DeltaSum(s[size..])
    case _ => 0
  }

  /** The timestamp after the complete frames at the front of `s`, each difference added in turn. */
  function Accumulated(base: Int64, s: Bytes): Int64
    decreases |s|
  {
    match Parse(s)
    case Frame(field, _, size) => Accumulated(Advance(base, field), s[size..])
    case _ => base
  }

  lemma {:induction false} AccumulatedIsSum(base: Int64, s: Bytes)
    ensures MovedBy(base, DeltaSum(s), Accumulated(base, s))
    decreases |s|
  {
    var frame := Parse(s);
    if frame.Frame? {
      var tail, next := s[frame.size..], Advance(base, frame.field);
      AdvanceMoves(base, frame.field);
      AccumulatedIsSum(next, tail);
      MovesAdd(base, frame.field, DeltaSum(tail), next, Accumulated(next, tail));
    } else {
      WrapUnique(base, base, 0);
    }
  }

  predicate AllPrintable(events: seq<Event>) {
    forall i | 0 <= i < |events| :: Printable(events[i].message)
  }

  /** The frames of `events` in order, the first one following timestamp `previous`. */
  function Frames(enc: Encoding, previous: Int64, events: seq<Event>): Bytes
    requires AllPrintable(events)
    decreases |events|
  {
    if events == [] then []
    else
      Print(Field(enc, previous, events[0].timestamp), events[0].message)
      + Frames(enc, events[0].timestamp, events[1..])
  }

  /** The timestamp a writer's next difference is taken against. */
  function LastTimestamp(previous: Int64, events: seq<Event>): Int64 {
    if events == [] then previous else events[|events| - 1].timestamp
  }

  /** One event more in front is one frame more in front. */
  lemma FramesCons(enc: Encoding, previous: Int64, head: Event, tail: seq<Event>)
    requires Printable(head.message) && AllPrintable(tail)
    ensures AllPrintable([head] + tail)
    ensures Frames(enc, previous, [head] + tail)
            == Print(Field(enc, previous, head.timestamp), head.message) + Frames(enc, head.timestamp, tail)
    ensures LastTimestamp(previous, [head] + tail) == LastTimestamp(head.timestamp, tail)
  {
    assert ([head] + tail)[1..] == tail;
  }

  /** One event more behind is one frame more behind. */
  lemma {:induction false} FramesAppend(enc: Encoding, previous: Int64, events: seq<Event>, last: Event)
    requires AllPrintable(events) && Printable(last.message)
    ensures AllPrintable(events + [last])
    ensures Frames(enc, previous, events + [last])
            == Frames(enc, previous, events)
             + Print(Field(enc, LastTimestamp(previous, events), last.timestamp), last.message)
    decreases |events|
  {
    if events == [] {
      assert events + [last] == [last] + [];
      FramesCons(enc, previous, last, []);
    } else {
      var head, tail := events[0], events[1..];
      FramesAppend(enc, head.timestamp, tail, last);
      FramesCons(enc, previous, head, tail);
      FramesCons(enc, previous, head, tail + [last]);
      assert events == [head] + tail && events + [last] == [head] + (tail + [last]);
      ConcatAssociates(Print(Field(enc, previous, head.timestamp), head.message), Frames(enc, head.timestamp, tail),
                       Print(Field(enc, LastTimestamp(previous, events), last.timestamp), last.message));
    }
  }

  /** `events`, then what `log` says. */
  function Before(events: seq<Event>, log: Log): Log {
    Log(events + log.events, log.ending)
  }

  lemma BeforeAdds(head: Event, tail: seq<Event>, log: Log)
    ensures Before([head], Before(tail, log)) == Before([head] + tail, log)
    ensures Before([], log) == log
  {
  }

  /** Decoding a printed frame gives its event, then whatever is behind it. */
  lemma DecodePrinted(enc: Encoding, previous: Int64, event: Event, behind: Bytes)
    requires Printable(event.message)
    ensures Decode(enc, previous, Print(Field(enc, previous, event.timestamp), event.message) + behind)
            == Before([event], Decode(enc, event.timestamp, behind))
  {
    var field := Field(enc, previous, event.timestamp);
    ParsePrint(field, event.message, behind);
    assert (Print(field, event.message) + behind)[|Print(field, event.message)|..] == behind;
    StampUndoesField(enc, previous, event.timestamp);
  }

  /** Decoding undoes printing: the printed events come first, then whatever the bytes behind them decode to. */
  lemma {:induction false} DecodeFrames(enc: Encoding, previous: Int64, events: seq<Event>, after: Bytes)
    requires AllPrintable(events)
    ensures Decode(enc, previous, Frames(enc, previous, events) + after)
            == Before(events, Decode(enc, LastTimestamp(previous, events), after))
    decreases |events|
  {
    if events == [] {
      assert Frames(enc, previous, []) + after == after;
      BeforeAdds(Event([], 0), [], Decode(enc, previous, after));
    } else {
      var head, tail := events[0], events[1..];
      var frames := Frames(enc, head.timestamp, tail);
      assert events == [head] + tail;
      FramesCons(enc, previous, head, tail);
      DecodePrinted(enc, previous, head, frames + after);
      ConcatAssociates(Print(Field(enc, previous, head.timestamp), head.message), frames, after);
      DecodeFrames(enc, head.timestamp, tail, after);
      BeforeAdds(head, tail, Decode(enc, LastTimestamp(previous, events), after));
    }
  }
}
