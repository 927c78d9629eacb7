/** The reader's three decoding calls, as values of the retry loop. */
module DecodingCalls {
  import opened Base
  import opened FrameCodec
  import opened PreambleCodec
  import opened WholeStream
  import opened TimedSearch
  import opened RetryLoop

  // ----- DeserializePreamble -----

  /** On success the new deserializer starts from the reference timestamp, or from zero. */
  function AttemptOpen(base: Int64, window: Bytes): (t: Try)
    ensures t.answer.Used() <= |window|
  {
    match ParsePreamble(window)
    case PreambleIncomplete => Try(Failed(IncompleteIr), base)
    case PreambleCorrupt => Try(Failed(CorruptedIr), base)
    case PreambleUnsupported => Try(Failed(UnsupportedVersion), base)
    case PreambleBadMetadata => Try(Failed(MetadataError), base)
    case Preamble(enc, m, size) =>
      Try(Opened(enc, m.pattern, m.patternSyntax, m.timeZoneId, size), StartingTimestamp(enc, m))
  }

  /** Where the preamble at the front of `s` ends: its third and fourth byte say how much follows them. */
  function PreambleEnd(s: Bytes): nat
    requires |s| >= 4
  {
    4 + 256 * (s[2] as int) + (s[3] as int)
  }

  predicate PreambleThere(s: Bytes) {
    |s| >= 4 && s[0] <= 1 && |s| >= PreambleEnd(s)
  }

  /** Which bytes give which answer, and which starting timestamp. */
  predicate PreambleTells(s: Bytes, answer: Answer, timestamp: Int64) {
    match answer
    case Failed(IncompleteIr) =>
      |s| == 0 || (s[0] <= 1 && !PreambleThere(s))
    case Failed(CorruptedIr) =>
      |s| > 0 && s[0] > 1
    case Failed(UnsupportedVersion) =>
      PreambleThere(s) && s[1] != 1
    case Failed(MetadataError) =>
      PreambleThere(s) && s[1] == 1 && ParseMetadata(s[4..PreambleEnd(s)]).None?
    case Opened(enc, pattern, patternSyntax, timeZoneId, pos) =>
      && PreambleThere(s) && s[1] == 1 && pos == PreambleEnd(s)
      && enc == (if s[0] == 1 then FourByte else EightByte)
      && ParseMetadata(s[4..pos]).Some?
      && var m := ParseMetadata(s[4..pos]).value;
      && pattern == m.pattern && patternSyntax == m.patternSyntax && timeZoneId == m.timeZoneId
      && timestamp == (if s[0] == 1 && m.reference.Some? then m.reference.value else 0)
    case _ => false
  }

  /** The cases exclude one another, so that the bytes decide the answer. */
  lemma OpenTells(base: Int64, s: Bytes)
    ensures PreambleTells(s, AttemptOpen(base, s).answer, AttemptOpen(base, s).timestamp)
  {
    if |s| >= 4 {
      assert DecodeNat(s, 2, 2) == DecodeNat(s, 2, 1) * 256 + s[3];
      assert DecodeNat(s, 2, 1) == s[2];
    }
  }

  function Opening(): Decoder {
    (base: Int64, window: Bytes) => AttemptOpen(base, window)
  }

  ghost predicate Opens(f: Decoder) {
    forall base, window {:trigger AttemptOpen(base, window)} :: f(base, window) == AttemptOpen(base, window)
  }

  lemma OpeningIsStable()
    ensures Stable(Opening()) && KeepsTimestamp(Opening()) && OwnAnswers(Opening())
    ensures Repeatable(Opening())
    ensures forall all :: SettlesAlike(Opening(), all)
  {
    forall base, window, more | !AttemptOpen(base, window).Incomplete()
      ensures AttemptOpen(base, window + more) == AttemptOpen(base, window)
    {
      PreambleStable(window, more);
    }
  }

  // ----- DeserializeLogEvent -----

  function AttemptNext(enc: Encoding, base: Int64, window: Bytes): (t: Try)
    ensures t.answer.Used() <= |window|
    ensures t.answer.Got? || t.answer.Failed?
    ensures t.answer.Got? ==> t.answer.pos >= 1
  {
    match Parse(window)
    case Incomplete => Try(Failed(IncompleteIr), base)
    case Corrupt => Try(Failed(CorruptedIr), base)
    case Eof => Try(Failed(EndOfIr), base)
    case Frame(field, message, size) =>
      var timestamp := Stamp(enc, base, field);
      Try(Got(Event(message, timestamp), size), timestamp)
  }

  function Reading(enc: Encoding): Decoder {
    (base: Int64, window: Bytes) => AttemptNext(enc, base, window)
  }

  ghost predicate Reads(f: Decoder, enc: Encoding) {
    forall base, window {:trigger AttemptNext(enc, base, window)} :: f(base, window) == AttemptNext(enc, base, window)
  }

  lemma ReadingIsStable(enc: Encoding)
    ensures Stable(Reading(enc)) && KeepsTimestamp(Reading(enc)) && OwnAnswers(Reading(enc))
    ensures Repeatable(Reading(enc))
    ensures forall all :: SettlesAlike(Reading(enc), all)
  {
    forall base, window, more | !AttemptNext(enc, base, window).Incomplete()
      ensures AttemptNext(enc, base, window + more) == AttemptNext(enc, base, window)
    {
      ParseStable(window, more);
    }
  }

  // ----- DeserializeWildcardMatch -----

  function Searching(r: Request, enc: Encoding): Decoder {
    (base: Int64, window: Bytes) => Scan(r, enc, base, window)
  }

  ghost predicate Searches(f: Decoder, r: Request, enc: Encoding) {
    forall base, window {:trigger Scan(r, enc, base, window)} :: f(base, window) == Scan(r, enc, base, window)
  }

  lemma SearchingIsStable(r: Request, enc: Encoding)
    ensures Stable(Searching(r, enc)) && OwnAnswers(Searching(r, enc))
  {
    forall base, window, more | !Scan(r, enc, base, window).Incomplete()
      ensures Scan(r, enc, base, window + more) == Scan(r, enc, base, window)
    {
      ScanStable(r, enc, base, window, more);
    }
    forall base, window
      ensures var a := Scan(r, enc, base, window).answer; !(a.Failed? && a.error.SourceError?)
    {
      ScanIsSearch(r, enc, base, window);
    }
  }

  lemma EightByteSearchRepeats(r: Request)
    ensures Repeatable(Searching(r, EightByte))
    ensures forall all :: SettlesAlike(Searching(r, EightByte), all)
  {
    forall one, two, window
      ensures Scan(r, EightByte, one, window).answer == Scan(r, EightByte, two, window).answer
    {
      EightByteIgnoresBase(r, one, two, window);
    }
  }

  lemma FourByteSearchAccumulates(r: Request)
    ensures Accumulates(Searching(r, FourByte), DeltaSum)
  {
    forall base, window | Scan(r, FourByte, base, window).Incomplete()
      ensures MovedBy(base, DeltaSum(window), Scan(r, FourByte, base, window).timestamp)
    {
      IncompleteScanAddsDeltas(r, base, window);
    }
  }
}
