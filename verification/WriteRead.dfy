/** The repository's write-then-read exercise, with the classes themselves. */
module WriteRead {
  import opened Base
  import opened FrameCodec
  import opened PreambleCodec
  import opened WholeStream
  import opened RetryLoop
  import opened DecodingCalls
  import opened ReaderRuns
  import opened WriterRuns
  import opened RoundTrip
  import opened Writers
  import opened Readers

  /** One event more adds one frame to the stream. */
  lemma StreamGrows(enc: Encoding, metadata: Metadata, events: seq<Event>, last: Event)
    requires PrintableMetadata(metadata) && AllPrintable(events) && Printable(last.message)
    ensures var previous := LastTimestamp(StartingTimestamp(enc, metadata), events);
            StreamOf(enc, metadata, events + [last], 0)
            == StreamOf(enc, metadata, events, 0) + Print(Field(enc, previous, last.timestamp), last.message)
  {
    FramesAppend(enc, StartingTimestamp(enc, metadata), events, last);
  }

  /** Closing adds the terminator. */
  lemma StreamCloses(enc: Encoding, metadata: Metadata, events: seq<Event>)
    requires PrintableMetadata(metadata) && AllPrintable(events)
    ensures StreamOf(enc, metadata, events, 0) + [EOF_TAG] == StreamOf(enc, metadata, events, 1)
  {
    assert Terminators(1) == [EOF_TAG] + Terminators(0);
  }

  /** Writes the events and closes the writer to a sink that takes everything. */
  method WriteEvents(enc: Encoding, timeZoneId: Bytes, now: Int64, events: seq<Event>) returns (stream: Bytes)
    requires PrintableMetadata(MetadataOf(enc, timeZoneId, now)) && AllPrintable(events)
    ensures stream == StreamOf(enc, MetadataOf(enc, timeZoneId, now), events, 1)
  {
    ghost var metadata := MetadataOf(enc, timeZoneId, now);
    var writer, error := NewWriterSize(enc, timeZoneId, now, Accept);
    for i := 0 to |events|
      invariant fresh(writer) && fresh(writer.serializer)
      invariant writer.serializer.enc == enc && writer.serializer.open
      invariant writer.buf == StreamOf(enc, metadata, events[..i], 0)
      invariant enc.FourByte? ==>
                  writer.serializer.prevTimestamp == LastTimestamp(StartingTimestamp(enc, metadata), events[..i])
    {
      assert events[..i + 1] == events[..i] + [events[i]];
      StreamGrows(enc, metadata, events[..i], events[i]);
      var written := writer.Write(events[i], Accept);
    }
    assert events[..|events|] == events;
    StreamCloses(enc, metadata, events);
    ghost var whole := writer.buf + [EOF_TAG];
    var sink := new Sink([]);
    assert Drain(whole, sink.Next(|whole|)).taken == whole;
    var n, failure := writer.CloseTo(sink);
    assert sink.accepted == whole;
    return sink.accepted;
  }

  lemma ReaderOpens(enc: Encoding, metadata: Metadata, events: seq<Event>, feed: Feed, size: nat, refills: nat)
    requires PrintableMetadata(metadata) && AllPrintable(events)
    requires feed.rest == StreamOf(enc, metadata, events, 1)
    requires size >= 1 && NeverBreaks(feed.plan) && refills >= Patience(feed)
    ensures var o := Construct(Opening(), size, feed, refills);
            && o.Done? && o.answer.Opened? && o.answer.enc == enc
            && Promising(o.m, refills) && LogOf(enc, o.m) == Log(events, Terminated)
  {
    StreamOpens(enc, metadata, events, 1);
    FairOpen(enc, feed, size, refills);
  }

  lemma ReaderReads(enc: Encoding, m: Machine, refills: nat, events: seq<Event>)
    requires Promising(m, refills) && LogOf(enc, m) == Log(events, Terminated)
    ensures var o := Retry(Reading(enc), m, refills);
            && o.Done? && Promising(o.m, refills)
            && EventOf(o.answer) == (if events == [] then Failure(EndOfIr) else Success(events[0]))
            && (events != [] ==> LogOf(enc, o.m) == Log(events[1..], Terminated))
  {
    ReadOne(enc, m, refills);
    FairRead(enc, m, refills);
  }

  /** One read of a stream that promises `events`. */
  method ReadNext(reader: Reader, ghost refills: nat, ghost events: seq<Event>) returns (r: Result<Event>)
    requires reader.Valid() && reader.deserializer != null
    requires Promising(reader.machine, refills)
    requires LogOf(reader.deserializer.enc, reader.machine) == Log(events, Terminated)
    modifies reader, reader.buf, reader.source, reader.deserializer
    ensures reader.Valid() && reader.Same() && Promising(reader.machine, refills)
    ensures r == if events == [] then Failure(EndOfIr) else Success(events[0])
    ensures events != [] ==> LogOf(reader.deserializer.enc, reader.machine) == Log(events[1..], Terminated)
  {
    ReaderReads(reader.deserializer.enc, reader.machine, refills, events);
    r := reader.Read(Reading(reader.deserializer.enc), refills);
  }

  /** Reads to the end of the stream and returns the events and the answer to the last read. */
  method ReadToEnd(reader: Reader, ghost refills: nat, ghost events: seq<Event>)
    returns (read: seq<Event>, end: Result<Event>)
    requires reader.Valid() && reader.deserializer != null
    requires Promising(reader.machine, refills)
    requires LogOf(reader.deserializer.enc, reader.machine) == Log(events, Terminated)
    modifies reader, reader.buf, reader.source, reader.deserializer
    ensures read == events && end == Failure(EndOfIr)
  {
    ghost var enc, left := reader.deserializer.enc, events;
    read := [];
    while true
      invariant reader.Valid() && reader.Same()
      invariant Promising(reader.machine, refills)
      invariant read + left == events
      invariant LogOf(enc, reader.machine) == Log(left, Terminated)
      decreases |left|
    {
      end := ReadNext(reader, refills, left);
      if end.Failure? {
        return;
      }
      assert [left[0]] + left[1..] == left;
      read, left := read + [end.value], left[1..];
    }
  }

  /** Opens a reader over the stream and reads it to its end. */
  method ReadEvents(
    enc: Encoding, ghost metadata: Metadata, ghost events: seq<Event>, stream: Bytes, plan: seq<Step>, size: nat)
    returns (read: seq<Event>, end: Result<Event>)
    requires PrintableMetadata(metadata) && AllPrintable(events)
    requires stream == StreamOf(enc, metadata, events, 1)
    requires size >= 1 && NeverBreaks(plan)
    ensures read == events && end == Failure(EndOfIr)
  {
    var source := new Source(stream, plan);
    ghost var refills := Patience(source.Feed());
    ReaderOpens(enc, metadata, events, source.Feed(), size, refills);
    var reader, error := NewReaderSize(source, size, Opening(), refills);
    read, end := ReadToEnd(reader, refills, events);
  }

  /** Whatever events are written, whatever the source's chunks and the reader's initial size, reading gives
      back the same events and then the end of the stream. */
  method WriteReadLogMessages(
    enc: Encoding, timeZoneId: Bytes, now: Int64, events: seq<Event>, plan: seq<Step>, size: nat)
    returns (read: seq<Event>, end: Result<Event>)
    requires PrintableMetadata(MetadataOf(enc, timeZoneId, now)) && AllPrintable(events)
    requires size >= 1 && NeverBreaks(plan)
    ensures read == events && end == Failure(EndOfIr)
  {
    var stream := WriteEvents(enc, timeZoneId, now, events);
    read, end := ReadEvents(enc, MetadataOf(enc, timeZoneId, now), events, stream, plan, size);
  }
}
