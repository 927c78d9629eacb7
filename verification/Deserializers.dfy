/** The stateful deserializer: one timestamp, updated as events are decoded. */
module Deserializers {
  import opened Base
  import opened FrameCodec
  import opened PreambleCodec
  import opened WildcardQuery
  import opened TimedSearch
  import opened DecodingCalls

  class Deserializer {
    const enc: Encoding
    const pattern: Bytes
    const patternSyntax: Bytes
    const timeZoneId: Bytes
    var timestamp: Int64

    constructor (enc: Encoding, m: Metadata)
      ensures this.enc == enc && timestamp == 0
      ensures pattern == m.pattern && patternSyntax == m.patternSyntax && timeZoneId == m.timeZoneId
    {
      this.enc, this.timestamp := enc, 0;
      this.pattern, this.patternSyntax, this.timeZoneId := m.pattern, m.patternSyntax, m.timeZoneId;
    }

    /** Decodes one event; the timestamp is committed only when that succeeds. */
    method DeserializeLogEvent(view: Bytes) returns (answer: Answer)
      modifies this
      ensures Try(answer, timestamp) == AttemptNext(enc, old(timestamp), view)
      ensures answer.Got? <==> Parse(view).Frame?
      ensures answer.Got? ==>
                && answer == Got(Event(Parse(view).message, timestamp), Parse(view).size)
                && timestamp == match enc
                                case EightByte => Parse(view).field
                                case FourByte => Wrap64(old(timestamp) + Parse(view).field)
      ensures !answer.Got? ==> timestamp == old(timestamp)
      ensures answer == Failed(IncompleteIr) <==> Parse(view).Incomplete?
      ensures answer == Failed(CorruptedIr) <==> Parse(view).Corrupt?
      ensures answer == Failed(EndOfIr) <==> Parse(view).Eof?
    {
      if |view| == 0 {
        return Failed(IncompleteIr);
      }
      match Parse(view) {
        case Incomplete => return Failed(IncompleteIr);
        case Corrupt => return Failed(CorruptedIr);
        case Eof => return Failed(EndOfIr);
        case Frame(field, message, size) =>
          var stamp := if enc.EightByte? then field else Advance(timestamp, field);
          timestamp := stamp;
          return Got(Event(message, timestamp), size);
      }
    }

    /** The first query, in order, that matches; an empty list accepts everything at index 0. */
    static method FindQuery(request: Request, message: Bytes) returns (found: bool, index: nat)
      ensures found <==> || request.queries == []
                         || exists i | 0 <= i < |request.queries| ::
                              request.matches(message, request.queries[i].text, request.queries[i].caseSensitive)
      ensures found && request.queries == [] ==> index == 0
      ensures found && request.queries != [] ==>
                && index < |request.queries|
                && request.matches(message, request.queries[index].text, request.queries[index].caseSensitive)
      ensures forall j | 0 <= j < index && j < |request.queries| ::
                !request.matches(message, request.queries[j].text, request.queries[j].caseSensitive)
      ensures found == request.Accepts(message)
      ensures found ==> index == request.FirstMatch(message, 0)
    {
      var queries := request.queries;
      if queries == [] {
        return true, 0;
      }
      index := 0;
      while index < |queries| && !request.matches(message, queries[index].text, queries[index].caseSensitive)
        invariant index <= |queries|
        invariant forall j | 0 <= j < index :: !request.matches(message, queries[j].text, queries[j].caseSensitive)
      {
        index := index + 1;
      }
      found := index < |queries|;
    }

    /** Scans events until one lies in the interval and matches. The timestamp is committed at every
        event walked, the position only at a match. */
    method DeserializeWildcardMatch(
      view: Bytes, interval: Interval, merged: MergedQuery, matches: Matcher)
      returns (answer: Answer)
      requires Consistent(merged)
      modifies this
      ensures Try(answer, timestamp)
              == Scan(Request(Pieces(merged), interval, matches), enc, old(timestamp), view)
      ensures MatchTells(Pieces(merged), interval, matches, Try(answer, timestamp))
    {
      if |view| == 0 {
        return Failed(IncompleteIr);
      }
      var queries := SplitMergedQuery(merged);
      var request := Request(queries, interval, matches);
      var pos := 0;
      ghost var whole := Scan(request, enc, timestamp, view);
      ScanScans(request, enc, timestamp, view, 0);
      ScanTells(request, enc, timestamp, view);
      assert view[0..] == view;
      while true
        invariant ScansTo(request, enc, timestamp, view, pos, whole)
        decreases |view| - pos
      {
        var frame := Parse(view[pos..]);
        if frame.Incomplete? {
          return Failed(IncompleteIr);
        } else if frame.Eof? {
          return Failed(EndOfIr);
        } else if frame.Corrupt? {
          return Failed(CorruptedIr);
        }
        var stamp := if enc.EightByte? then frame.field else Advance(timestamp, frame.field);
        timestamp := stamp;
        pos := pos + frame.size;
        if interval.upper <= timestamp {
          return Failed(QueryNotFound);
        }
        if interval.lower > timestamp {
          continue;
        }
        var found, index := FindQuery(request, frame.message);
        if !found {
          continue;
        }
        return Matched(Event(frame.message, timestamp), pos, index);
      }
    }
  }

  /** Reads a preamble and makes the deserializer for its encoding. On success the reference
      timestamp of a four-byte stream is written into the new deserializer. */
  method DeserializePreamble(view: Bytes) returns (d: Deserializer?, answer: Answer)
    ensures answer == AttemptOpen(0, view).answer
    ensures PreambleTells(view, answer, if d == null then 0 else d.timestamp)
    ensures answer.Opened? <==> d != null
    ensures answer.Opened? ==>
              && fresh(d) && d.enc == answer.enc && d.timestamp == AttemptOpen(0, view).timestamp
              && d.pattern == answer.pattern && d.patternSyntax == answer.patternSyntax
              && d.timeZoneId == answer.timeZoneId
  {
    OpenTells(0, view);
    if |view| == 0 {
      return null, Failed(IncompleteIr);
    }
    match ParsePreamble(view) {
      case PreambleIncomplete => return null, Failed(IncompleteIr);
      case PreambleCorrupt => return null, Failed(CorruptedIr);
      case PreambleUnsupported => return null, Failed(UnsupportedVersion);
      case PreambleBadMetadata => return null, Failed(MetadataError);
      case Preamble(enc, m, size) =>
        var made := new Deserializer(enc, m);
        if enc.FourByte? && m.reference.Some? {
          made.timestamp := m.reference.value;
        }
        return made, Opened(enc, m.pattern, m.patternSyntax, m.timeZoneId, size);
    }
  }
}
