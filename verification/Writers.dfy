/** The writer: a serializer and the buffer its frames pile up in until a sink takes them. */
module Writers {
  import opened Base
  import opened FrameCodec
  import opened PreambleCodec
  import opened WriterRuns
  import opened Serializers

  /** An io.Writer: what it has taken and how it will answer the writes to come. After its plan it takes
      everything. */
  class Sink {
    var accepted: Bytes
    var plan: seq<SinkStep>

    constructor (plan: seq<SinkStep>)
      ensures accepted == [] && this.plan == plan
    {
      this.accepted, this.plan := [], plan;
    }

    /** The answer to the next write if it is `size` bytes long. */
    function Next(size: nat): SinkStep
      reads this
    {
      if plan == [] then SinkStep(size, None) else plan[0]
    }

    method Write(p: Bytes) returns (n: nat, error: Option<int>)
      modifies this
      ensures n == (if old(Next(|p|)).count < |p| then old(Next(|p|)).count else |p|)
      ensures error == old(Next(|p|)).error
      ensures accepted == old(accepted) + p[..n]
      ensures plan == if old(plan) == [] then [] else old(plan)[1..]
    {
      n, error := |p|, None;
      if plan != [] {
        error := plan[0].error;
        if plan[0].count < n {
          n := plan[0].count;
        }
        plan := plan[1..];
      }
      accepted := accepted + p[..n];
    }
  }

  class Writer {
    const serializer: Serializer
    var buf: Bytes

    constructor (serializer: Serializer, preamble: Bytes)
      ensures this.serializer == serializer && buf == preamble
    {
      this.serializer, this.buf := serializer, preamble;
    }

    function View(): State
      reads this, serializer
    {
      State(serializer.enc, serializer.open, serializer.prevTimestamp, buf)
    }

    /** Serializes an event and appends its frame to the buffer. */
    method Write(event: Event, verdict: Verdict) returns (r: Result<nat>)
      modifies this, serializer
      ensures View() == Perform(old(View()), Command.Write(event, verdict)).w
      ensures r == if old(serializer.open) && verdict.Admits(event) then Success(|buf| - |old(buf)|)
                   else Failure(CorruptedIr)
      ensures r.Success? <==> old(serializer.open) && verdict == Accept && |event.message| < 0x1_0000_0000
      ensures r.Success? ==>
                && buf == old(buf) + Print(match serializer.enc
                                           case EightByte => event.timestamp
                                           case FourByte => Wrap64(event.timestamp - old(serializer.prevTimestamp)),
                                           event.message)
                && r.value == |buf| - |old(buf)|
                && serializer.prevTimestamp == match serializer.enc
                                               case EightByte => old(serializer.prevTimestamp)
                                               case FourByte => event.timestamp
      ensures r.Failure? ==>
                && r.error == CorruptedIr && buf == old(buf)
                && serializer.prevTimestamp == old(serializer.prevTimestamp)
      ensures serializer.open == old(serializer.open)
    {
      var irView := serializer.SerializeLogEvent(event, verdict);
      if irView.Failure? {
        return Failure(irView.error);
      }
      buf := buf + irView.value;
      return Success(|irView.value|);
    }

    /** bytes.Buffer.WriteTo: one write to the sink, unless the buffer is empty. */
    method DrainTo(sink: Sink) returns (n: nat, error: Option<SinkError>)
      modifies `buf, sink
      ensures var d := Drain(old(buf), old(sink.Next(|buf|)));
              && n == |d.taken| && error == d.error && buf == d.rest
              && sink.accepted == old(sink.accepted) + d.taken
      ensures sink.accepted + buf == old(sink.accepted) + old(buf) && |sink.accepted| == |old(sink.accepted)| + n
      ensures var step := old(sink.Next(|buf|));
              && (old(buf) == [] ==> n == 0 && error == None)
              && (old(buf) != [] ==>
                    && n == (if step.count < |old(buf)| then step.count else |old(buf)|)
                    && error == if step.error.Some? then Some(Reported(step.error.value))
                                else if step.count < |old(buf)| then Some(ShortWrite) else None)
      ensures sink.plan == if old(buf) == [] || old(sink.plan) == [] then old(sink.plan) else old(sink.plan)[1..]
    {
      if buf == [] {
        return 0, None;
      }
      var code;
      n, code := sink.Write(buf);
      var all := |buf|;
      buf := buf[n..];
      if code.Some? {
        return n, Some(Reported(code.value));
      }
      if n < all {
        return n, Some(ShortWrite);
      }
      return n, None;
    }

    /** Drains the buffer; on an error what the sink did not take stays in it. */
    method WriteTo(sink: Sink) returns (n: nat, error: Option<SinkError>)
      modifies `buf, sink
      ensures var e := Perform(old(View()), Command.WriteTo(old(sink.Next(|buf|))));
              && View() == e.w && sink.accepted == old(sink.accepted) + e.sunk && n == |e.sunk|
      ensures error == None ==> buf == []
      ensures sink.accepted + buf == old(sink.accepted) + old(buf) && |sink.accepted| == |old(sink.accepted)| + n
      ensures var step := old(sink.Next(|buf|));
              && (old(buf) == [] ==> n == 0 && error == None)
              && (old(buf) != [] ==>
                    && n == (if step.count < |old(buf)| then step.count else |old(buf)|)
                    && error == if step.error.Some? then Some(Reported(step.error.value))
                                else if step.count < |old(buf)| then Some(ShortWrite) else None)
      ensures sink.plan == if old(buf) == [] || old(sink.plan) == [] then old(sink.plan) else old(sink.plan)[1..]
    {
      n, error := DrainTo(sink);
      if error == None {
        buf := [];
      }
    }

    /** Appends the end of the stream and closes the serializer. */
    method Close()
      modifies `buf, serializer`open
      ensures View() == Perform(old(View()), Command.Close).w
      ensures buf == old(buf) + [0x0] && !serializer.open && serializer.prevTimestamp == old(serializer.prevTimestamp)
    {
      buf := buf + [EOF_TAG];
      serializer.Close();
    }

    method CloseTo(sink: Sink) returns (n: nat, error: Option<SinkError>)
      modifies `buf, serializer`open, sink
      ensures var e := Perform(old(View()), Command.CloseTo(old(sink.Next(|buf| + 1))));
              && View() == e.w && sink.accepted == old(sink.accepted) + e.sunk && n == |e.sunk|
      ensures error == None ==> buf == []
      ensures sink.accepted + buf == old(sink.accepted) + old(buf) + [0x0]
      ensures |sink.accepted| == |old(sink.accepted)| + n
      ensures var step := old(sink.Next(|buf| + 1));
              && n == (if step.count < |old(buf)| + 1 then step.count else |old(buf)| + 1)
              && error == if step.error.Some? then Some(Reported(step.error.value))
                          else if step.count < |old(buf)| + 1 then Some(ShortWrite) else None
      ensures !serializer.open && serializer.prevTimestamp == old(serializer.prevTimestamp)
      ensures sink.plan == if old(sink.plan) == [] then [] else old(sink.plan)[1..]
    {
      Close();
      n, error := WriteTo(sink);
    }

    method Bytes() returns (bytes: Bytes)
      ensures bytes == buf
    {
      return buf;
    }

    method Reset()
      modifies `buf
      ensures View() == Perform(old(View()), Command.Reset).w
      ensures buf == []
    {
      buf := [];
    }
  }

  /** Makes a writer whose buffer holds the preamble. `now` is the wall clock's time. */
  method NewWriterSize(enc: Encoding, timeZoneId: Bytes, now: Int64, verdict: Verdict)
    returns (writer: Writer?, error: Option<Error>)
    ensures writer != null <==> error == None
    ensures error == None <==> verdict.Accept? && PrintableMetadata(MetadataOf(enc, timeZoneId, now))
    ensures error.Some? ==> error.value == CorruptedIr
    ensures writer != null ==>
              && fresh(writer) && fresh(writer.serializer)
              && writer.View() == Fresh(enc, timeZoneId, now)
              && writer.serializer.enc == enc && writer.serializer.open
              && writer.serializer.prevTimestamp == (if enc.FourByte? then now else 0)
              && var metadata := Metadata([], [], timeZoneId, if enc.FourByte? then Some(now) else None);
                 PrintableMetadata(metadata) && writer.buf == PrintPreamble(enc, metadata)
  {
    var serializer, irView;
    match enc {
      case EightByte => serializer, irView := EightByteSerializer([], [], timeZoneId, verdict);
      case FourByte => serializer, irView := FourByteSerializer([], [], timeZoneId, now, verdict);
    }
    if irView.Failure? {
      return null, Some(irView.error);
    }
    writer := new Writer(serializer, irView.value);
    return writer, None;
  }
}
