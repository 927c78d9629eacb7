/** The writer on values, and what any interleaving of its methods leaves behind. */
module WriterRuns {
  import opened Base
  import opened FrameCodec
  import opened PreambleCodec
  import opened WholeStream

  // ----- Serializing one event -----

  /** Whether CLP's encoder accepts an event is left open. A refusal may leave bytes in the serializer's
      own buffer. */
  datatype Verdict = Accept | Refuse(residue: Bytes)
  {
    predicate Admits(event: Event) {
      Accept? && Printable(event.message)
    }
  }

  /** The writer: its serializer's encoding, whether that is still open, the timestamp the next difference
      is taken against, and the bytes not drained yet. */
  datatype State = State(enc: Encoding, open: bool, previous: Int64, buf: Bytes)

  datatype Serialized = Serialized(result: Result<Bytes>, previous: Int64)

  /** The bytes of one event, or an error. Only a four-byte serializer keeps the timestamp, and only when
      it succeeds. */
  function Serialize(enc: Encoding, open: bool, previous: Int64, event: Event, verdict: Verdict): Serialized {
    if open && verdict.Admits(event) then
      Serialized(Success(Print(Field(enc, previous, event.timestamp), event.message)),
                 if enc.FourByte? then event.timestamp else previous)
    else Serialized(Failure(CorruptedIr), previous)
  }

  // ----- Draining -----

  /** How a sink answers one write: it takes at most this many bytes and may report an error. */
  datatype SinkStep = SinkStep(count: nat, error: Option<int>)

  datatype SinkError = Reported(code: int) | ShortWrite

  datatype Drained = Drained(taken: Bytes, rest: Bytes, error: Option<SinkError>)

  /** bytes.Buffer.WriteTo: an empty buffer does not call the sink; bytes taken leave the buffer even if
      the sink reports an error; a sink that takes too few is an error of its own. */
  function Drain(buf: Bytes, step: SinkStep): (d: Drained)
    ensures d.taken + d.rest == buf
    ensures d.error == None ==> d.rest == []
  {
    if buf == [] then Drained([], [], None)
    else
      var n := if step.count < |buf| then step.count else |buf|;
      Drained(buf[..n], buf[n..],
              if step.error.Some? then Some(Reported(step.error.value))
              else if n < |buf| then Some(ShortWrite) else None)
  }

  // ----- Commands -----

  datatype Command =
    | Write(event: Event, verdict: Verdict)
    | WriteTo(step: SinkStep)
    | Close
    | CloseTo(step: SinkStep)
    | Reset

  /** What commands leave behind: the new state, the events written, the bytes the sinks took, all the
      bytes that left the buffer, dropped ones included, and the terminators appended. */
  datatype Effect = Effect(w: State, written: seq<Event>, sunk: Bytes, gone: Bytes, closes: nat)

  function Perform(w: State, c: Command): Effect {
    match c
    case Write(event, verdict) =>
      var s := Serialize(w.enc, w.open, w.previous, event, verdict);
      if s.result.Success? then
        Effect(w.(previous := s.previous, buf := w.buf + s.result.value), [event], [], [], 0)
      else Effect(w, [], [], [], 0)
    case WriteTo(step) =>
      var d := Drain(w.buf, step);
      Effect(w.(buf := d.rest), [], d.taken, d.taken, 0)
    case Close => Effect(w.(open := false, buf := w.buf + [EOF_TAG]), [], [], [], 1)
    case CloseTo(step) =>
      var d := Drain(w.buf + [EOF_TAG], step);
      Effect(w.(open := false, buf := d.rest), [], d.taken, d.taken, 1)
    case Reset => Effect(w.(buf := []), [], [], w.buf, 0)
  }

  function Then(first: Effect, second: Effect): Effect {
    Effect(second.w, first.written + second.written, first.sunk + second.sunk, first.gone + second.gone,
           first.closes + second.closes)
  }

  function PerformAll(w: State, commands: seq<Command>): Effect
    decreases |commands|
  {
    if commands == [] then Effect(w, [], [], [], 0)
    else
      var first := Perform(w, commands[0]);
      Then(first, PerformAll(first.w, commands[1..]))
  }

  // ----- Conservation -----

  function Terminators(count: nat): Bytes {
    if count == 0 then [] else [EOF_TAG] + Terminators(count - 1)
  }

  /** The events a run is to write, read off the commands: those the encoder admits before the first
      close, if the writer is open at all. */
  function Admitted(open: bool, commands: seq<Command>): (events: seq<Event>)
    ensures AllPrintable(events)
    ensures !open ==> events == []
  {
    if !open || commands == [] then []
    else
      match commands[0]
      case Write(event, verdict) =>
        (if verdict.Admits(event) then [event] else []) + Admitted(open, commands[1..])
      case Close => []
      case CloseTo(_) => []
      case _ => Admitted(open, commands[1..])
  }

  function Closes(commands: seq<Command>): nat {
    if commands == [] then 0
    else (if commands[0].Close? || commands[0].CloseTo? then 1 else 0) + Closes(commands[1..])
  }

  /** In eight-byte streams the previous timestamp does not matter. */
  lemma EightByteFrames(one: Int64, two: Int64, events: seq<Event>)
    requires AllPrintable(events)
    ensures Frames(EightByte, one, events) == Frames(EightByte, two, events)
  {
  }

  /** `e` accounts for the bytes `w` had, the frames of what was written and the terminators; the
      timestamp kept is that of the last event written. */
  predicate Accounts(w: State, e: Effect) {
    && AllPrintable(e.written)
    && e.gone + e.w.buf == w.buf + (Frames(w.enc, w.previous, e.written) + Terminators(e.closes))
    && e.w.enc == w.enc
    && (w.enc.FourByte? ==> e.w.previous == LastTimestamp(w.previous, e.written))
    && e.w.open == (w.open && e.closes == 0)
    && (!w.open ==> e.written == [])
  }

  lemma PerformAccounts(w: State, c: Command)
    ensures Accounts(w, Perform(w, c))
  {
    var e := Perform(w, c);
    if e.written != [] {
      assert Frames(w.enc, e.written[0].timestamp, e.written[1..]) == [];
    }
    assert Terminators(1) == [EOF_TAG] + Terminators(0);
  }

  lemma FramesBehind(enc: Encoding, previous: Int64, kept: Int64, first: seq<Event>, second: seq<Event>)
    requires AllPrintable(first) && AllPrintable(second) && |first| <= 1
    requires enc.FourByte? ==> kept == LastTimestamp(previous, first)
    ensures Frames(enc, previous, first + second) == Frames(enc, previous, first) + Frames(enc, kept, second)
    ensures enc.FourByte? ==> LastTimestamp(previous, first + second) == LastTimestamp(kept, second)
  {
    if first == [] {
      assert first + second == second;
      if enc.EightByte? {
        EightByteFrames(previous, kept, second);
      }
    } else {
      assert (first + second)[1..] == second && first[1..] == [];
      if enc.EightByte? {
        EightByteFrames(first[0].timestamp, kept, second);
      }
    }
  }

  lemma BytesChain(
    buf: Bytes, gone1: Bytes, buf1: Bytes, one: Bytes, ends1: Bytes,
    gone2: Bytes, buf2: Bytes, two: Bytes, ends2: Bytes)
    requires gone1 + buf1 == buf + (one + ends1)
    requires gone2 + buf2 == buf1 + (two + ends2)
    requires ends1 == [] || two == []
    ensures gone1 + gone2 + buf2 == buf + (one + two + (ends1 + ends2))
  {
    assert gone1 + gone2 + buf2 == gone1 + (gone2 + buf2);
    assert gone1 + (buf1 + (two + ends2)) == gone1 + buf1 + (two + ends2);
    assert ends1 + (two + ends2) == two + (ends1 + ends2);
    assert buf + (one + ends1) + (two + ends2) == buf + (one + (ends1 + (two + ends2)));
    assert one + (two + (ends1 + ends2)) == one + two + (ends1 + ends2);
  }

  lemma {:induction false} TerminatorsAdd(first: nat, second: nat)
    ensures Terminators(first + second) == Terminators(first) + Terminators(second)
  {
    if first > 0 {
      TerminatorsAdd(first - 1, second);
    }
  }

  lemma ThenAccounts(w: State, first: Effect, second: Effect)
    requires Accounts(w, first) && Accounts(first.w, second)
    requires |first.written| + first.closes <= 1
    ensures Accounts(w, Then(first, second))
  {
    var one, two := Frames(w.enc, w.previous, first.written), Frames(w.enc, first.w.previous, second.written);
    var ends1, ends2 := Terminators(first.closes), Terminators(second.closes);
    FramesBehind(w.enc, w.previous, first.w.previous, first.written, second.written);
    TerminatorsAdd(first.closes, second.closes);
    BytesChain(w.buf, first.gone, first.w.buf, one, ends1, second.gone, second.w.buf, two, ends2);
    var both := Then(first, second);
    assert both.gone == first.gone + second.gone && both.written == first.written + second.written;
    assert Frames(w.enc, w.previous, both.written) == one + two && Terminators(both.closes) == ends1 + ends2;
  }

  /** Conservation: in any interleaving of the writer's methods, failing writes, short or failing sinks and
      repeated closes included, the bytes that left the buffer followed by those in it are the bytes it
      started with, the frames of the events written and the terminators. */
  lemma {:induction false} RunAccounts(w: State, commands: seq<Command>)
    ensures Accounts(w, PerformAll(w, commands))
    decreases |commands|
  {
    if commands == [] {
      assert Terminators(0) == [];
    } else {
      PerformAccounts(w, commands[0]);
      var first := Perform(w, commands[0]);
      RunAccounts(first.w, commands[1..]);
      ThenAccounts(w, first, PerformAll(first.w, commands[1..]));
    }
  }

  lemma AdmittedStep(w: State, c: Command, rest: seq<Command>)
    ensures Admitted(w.open, [c] + rest) == Perform(w, c).written + Admitted(Perform(w, c).w.open, rest)
    ensures Closes([c] + rest) == Perform(w, c).closes + Closes(rest)
  {
    assert ([c] + rest)[1..] == rest;
  }

  /** What is written is exactly what the encoder admits before the first close, and every close appends
      one terminator. */
  lemma {:induction false} RunWritesAdmitted(w: State, commands: seq<Command>)
    ensures PerformAll(w, commands).written == Admitted(w.open, commands)
    ensures PerformAll(w, commands).closes == Closes(commands)
    decreases |commands|
  {
    if commands != [] {
      var c, rest := commands[0], commands[1..];
      assert commands == [c] + rest;
      AdmittedStep(w, c, rest);
      RunWritesAdmitted(Perform(w, c).w, rest);
    }
  }

  /** Without a reset the sinks took every byte that left the buffer. */
  lemma {:induction false} SinksTakeAll(w: State, commands: seq<Command>)
    requires Reset !in commands
    ensures PerformAll(w, commands).sunk == PerformAll(w, commands).gone
    decreases |commands|
  {
    if commands != [] {
      assert commands[0] in commands;
      SinksTakeAll(Perform(w, commands[0]).w, commands[1..]);
    }
  }

  // ----- A writer from its constructor on -----

  /** The metadata NewWriterSize asks for. Only four-byte streams carry a reference timestamp. */
  function MetadataOf(enc: Encoding, timeZoneId: Bytes, now: Int64): Metadata {
    Metadata([], [], timeZoneId, if enc.FourByte? then Some(now) else None)
  }

  /** The writer NewWriterSize makes: its buffer holds the preamble. */
  function Fresh(enc: Encoding, timeZoneId: Bytes, now: Int64): State
    requires PrintableMetadata(MetadataOf(enc, timeZoneId, now))
  {
    var metadata := MetadataOf(enc, timeZoneId, now);
    State(enc, true, StartingTimestamp(enc, metadata), PrintPreamble(enc, metadata))
  }

  /** A preamble, the frames of `events` and `closes` terminators. */
  function StreamOf(enc: Encoding, metadata: Metadata, events: seq<Event>, closes: nat): Bytes
    requires PrintableMetadata(metadata) && AllPrintable(events)
  {
    PrintPreamble(enc, metadata) + (Frames(enc, StartingTimestamp(enc, metadata), events) + Terminators(closes))
  }

  /** Writer conservation: for any run without a reset, the bytes the sinks took followed by the buffer are
      the preamble, the frames of the admitted events and one terminator for each close. */
  lemma WriterConserves(enc: Encoding, timeZoneId: Bytes, now: Int64, commands: seq<Command>)
    requires PrintableMetadata(MetadataOf(enc, timeZoneId, now)) && Reset !in commands
    ensures var e := PerformAll(Fresh(enc, timeZoneId, now), commands);
            e.sunk + e.w.buf
            == StreamOf(enc, MetadataOf(enc, timeZoneId, now), Admitted(true, commands), Closes(commands))
  {
    var w := Fresh(enc, timeZoneId, now);
    RunAccounts(w, commands);
    RunWritesAdmitted(w, commands);
    SinksTakeAll(w, commands);
  }

  /** Telescoping: after any run, failures and resets included, a four-byte writer holds the timestamp of
      the last event admitted, or the reference timestamp, and a reader that adds the differences of the
      frames to the reference rebuilds every admitted timestamp. */
  lemma DifferencesTelescope(timeZoneId: Bytes, now: Int64, commands: seq<Command>)
    requires PrintableMetadata(MetadataOf(FourByte, timeZoneId, now))
    ensures PerformAll(Fresh(FourByte, timeZoneId, now), commands).w.previous
            == LastTimestamp(now, Admitted(true, commands))
    ensures Decode(FourByte, now, Frames(FourByte, now, Admitted(true, commands)) + [EOF_TAG])
            == Log(Admitted(true, commands), Terminated)
  {
    var w := Fresh(FourByte, timeZoneId, now);
    RunAccounts(w, commands);
    RunWritesAdmitted(w, commands);
    var events := Admitted(true, commands);
    DecodeFrames(FourByte, now, events, [EOF_TAG]);
    assert events + [] == events;
  }
}
