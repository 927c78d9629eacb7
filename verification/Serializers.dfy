/** The serializer: one buffer, cleared and refilled for each event, and the previous timestamp. */
module Serializers {
  import opened Base
  import opened FrameCodec
  import opened PreambleCodec
  import opened WriterRuns

  class Serializer {
    const enc: Encoding
    const metadata: Metadata
    /** Whether the underlying object still exists. */
    var open: bool
    /** The bytes of the last call; the views handed out show this buffer. */
    var irBuf: Bytes
    /** The timestamp a four-byte serializer takes its next difference against; unused otherwise. */
    var prevTimestamp: Int64

    constructor (enc: Encoding, metadata: Metadata, reference: Int64)
      ensures this.enc == enc && this.metadata == metadata
      ensures open && irBuf == [] && prevTimestamp == reference
    {
      this.enc, this.metadata := enc, metadata;
      this.open, this.irBuf, this.prevTimestamp := true, [], reference;
    }

    /** Serializes one frame into the buffer. A refusal may leave bytes in it. */
    method SerializeFrame(message: Bytes, timestampOrDelta: Int64, verdict: Verdict) returns (error: Option<Error>)
      modifies `irBuf
      ensures error == None <==> open && verdict.Accept? && Printable(message)
      ensures error.Some? ==> error.value == CorruptedIr
      ensures error == None ==> irBuf == Print(timestampOrDelta, message)
      ensures error.Some? ==>
                irBuf == if !open then old(irBuf) else if verdict.Refuse? then verdict.residue else []
    {
      if !open {
        return Some(CorruptedIr);
      }
      irBuf := [];
      if verdict.Refuse? {
        irBuf := irBuf + verdict.residue;
        return Some(CorruptedIr);
      }
      if !Printable(message) {
        return Some(CorruptedIr);
      }
      irBuf := irBuf + Print(timestampOrDelta, message);
      return None;
    }

    /** Serializes an event and shows its bytes. The previous timestamp moves only on success. */
    method SerializeLogEvent(event: Event, verdict: Verdict) returns (r: Result<Bytes>)
      modifies `irBuf, `prevTimestamp
      ensures Serialized(r, prevTimestamp) == Serialize(enc, open, old(prevTimestamp), event, verdict)
      ensures r.Success? <==> open && verdict == Accept && |event.message| < 0x1_0000_0000
      ensures r.Success? ==>
                && r.value == Print(match enc
                                    case EightByte => event.timestamp
                                    case FourByte => Wrap64(event.timestamp - old(prevTimestamp)),
                                    event.message)
                && prevTimestamp == (match enc case EightByte => old(prevTimestamp) case FourByte => event.timestamp)
      ensures r.Failure? ==> r.error == CorruptedIr && prevTimestamp == old(prevTimestamp)
      ensures r.Success? ==> irBuf == r.value
    {
      var error;
      match enc {
        case EightByte =>
          error := SerializeFrame(event.message, event.timestamp, verdict);
        case FourByte =>
          error := SerializeFrame(event.message, Delta(prevTimestamp, event.timestamp), verdict);
          if error == None {
            prevTimestamp := event.timestamp;
          }
      }
      if error.Some? {
        return Failure(error.value);
      }
      return Success(irBuf);
    }

    method Close()
      modifies `open
      ensures !open
    {
      open := false;
    }
  }

  /** Makes a serializer and writes the preamble into its buffer; CLP may refuse the metadata. */
  method NewSerializerWithPreamble(enc: Encoding, metadata: Metadata, reference: Int64, verdict: Verdict)
    returns (serializer: Serializer?, preamble: Result<Bytes>)
    ensures serializer != null <==> preamble.Success?
    ensures preamble.Success? <==> verdict.Accept? && PrintableMetadata(metadata)
    ensures preamble.Failure? ==> preamble.error == CorruptedIr
    ensures serializer != null ==>
              && fresh(serializer) && serializer.enc == enc && serializer.metadata == metadata
              && serializer.open && serializer.prevTimestamp == reference
              && preamble.value == PrintPreamble(enc, metadata) == serializer.irBuf
  {
    var made := new Serializer(enc, metadata, reference);
    if verdict.Refuse? || !PrintableMetadata(metadata) {
      return null, Failure(CorruptedIr);
    }
    made.irBuf := made.irBuf + PrintPreamble(enc, metadata);
    return made, Success(made.irBuf);
  }

  method EightByteSerializer(pattern: Bytes, patternSyntax: Bytes, timeZoneId: Bytes, verdict: Verdict)
    returns (serializer: Serializer?, preamble: Result<Bytes>)
    ensures serializer != null <==> preamble.Success?
    ensures var metadata := Metadata(pattern, patternSyntax, timeZoneId, None);
            && (preamble.Success? <==> verdict.Accept? && PrintableMetadata(metadata))
            && (preamble.Failure? ==> preamble.error == CorruptedIr)
            && (serializer != null ==>
                  && fresh(serializer) && serializer.enc == EightByte && serializer.metadata == metadata
                  && serializer.open && serializer.prevTimestamp == 0
                  && preamble.value == PrintPreamble(EightByte, metadata))
  {
    serializer, preamble :=
      NewSerializerWithPreamble(EightByte, Metadata(pattern, patternSyntax, timeZoneId, None), 0, verdict);
  }

  /** The first difference is taken against the reference timestamp, which the preamble carries. */
  method FourByteSerializer(
    pattern: Bytes, patternSyntax: Bytes, timeZoneId: Bytes, referenceTs: Int64, verdict: Verdict)
    returns (serializer: Serializer?, preamble: Result<Bytes>)
    ensures serializer != null <==> preamble.Success?
    ensures var metadata := Metadata(pattern, patternSyntax, timeZoneId, Some(referenceTs));
            && (preamble.Success? <==> verdict.Accept? && PrintableMetadata(metadata))
            && (preamble.Failure? ==> preamble.error == CorruptedIr)
            && (serializer != null ==>
                  && fresh(serializer) && serializer.enc == FourByte && serializer.metadata == metadata
                  && serializer.open && serializer.prevTimestamp == referenceTs
                  && preamble.value == PrintPreamble(FourByte, metadata))
  {
    serializer, preamble :=
      NewSerializerWithPreamble(
        FourByte, Metadata(pattern, patternSyntax, timeZoneId, Some(referenceTs)), referenceTs, verdict);
  }
}
