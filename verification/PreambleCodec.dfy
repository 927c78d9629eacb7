/**
 The stream's first frame: encoding byte, metadata type, metadata length and metadata. As with
 FrameCodec the layout is a stand-in; the answers follow DeserializePreamble.
 */
module PreambleCodec {
  import opened Base
  import opened FrameCodec

  /** The metadata fields the reader uses. A four-byte stream may lack a reference timestamp. */
  datatype Metadata = Metadata(
    pattern: Bytes, patternSyntax: Bytes, timeZoneId: Bytes, reference: Option<Int64>)

  /** The timestamp that a four-byte stream's first difference is taken against. */
  function StartingTimestamp(enc: Encoding, m: Metadata): Int64 {
    if enc.FourByte? && m.reference.Some? then m.reference.value else 0
  }

  datatype Preamble =
    | PreambleIncomplete
    | PreambleCorrupt
    | PreambleUnsupported
    | PreambleBadMetadata
    | Preamble(enc: Encoding, metadata: Metadata, size: nat)

  const JSON_METADATA: Byte := 1
  const PREFIX := 4

  // ----- Metadata -----

  function PrintString(s: Bytes): Bytes {
    EncodeNat(|s|, 2) + s
  }

  function PrintReference(reference: Option<Int64>): Bytes {
    match reference
    case None => []
    case Some(ts) => EncodeInt64(ts)
  }

  function PrintMetadata(m: Metadata): Bytes {
    PrintString(m.pattern) + (PrintString(m.patternSyntax) +
    (PrintString(m.timeZoneId) + PrintReference(m.reference)))
  }

  /** A length-delimited string at the front of `s` and what follows it. */
  function ParseString(s: Bytes): Option<(Bytes, Bytes)> {
    if |s| < 2 then None
    else
      var end := 2 + DecodeNat(s, 0, 2);
      if |s| < end then None else Some((s[2..end], s[end..]))
  }

  function ParseReference(s: Bytes): Option<Option<Int64>> {
    if s == [] then Some(None) else if |s| == 8 then Some(Some(DecodeInt64(s, 0))) else None
  }

  function ParseMetadata(s: Bytes): Option<Metadata> {
    match ParseString(s)
    case None => None
    case Some((pattern, s1)) =>
      match ParseString(s1)
      case None => None
      case Some((syntax, s2)) =>
        match ParseString(s2)
        case None => None
        case Some((zone, s3)) =>
          match ParseReference(s3)
          case None => None
          case Some(reference) => Some(Metadata(pattern, syntax, zone, reference))
  }

  lemma ParsePrintString(s: Bytes, rest: Bytes)
    requires |s| < 0x1_0000
    ensures ParseString(PrintString(s) + rest) == Some((s, rest))
  {
    var t := PrintString(s) + rest;
    Pow256Values();
    assert t[0..2] == EncodeNat(|s|, 2);
    NatRoundTrip(t, 0, |s|, 2);
    assert t[2..2 + |s|] == s && t[2 + |s|..] == rest;
  }

  lemma ParsePrintMetadata(m: Metadata)
    requires PrintableMetadata(m)
    ensures ParseMetadata(PrintMetadata(m)) == Some(m)
  {
    var last := PrintReference(m.reference);
    if m.reference.Some? {
      assert last[0..8] == last;
      Int64RoundTrip(last, 0, m.reference.value);
    }
    ParsePrintString(m.timeZoneId, last);
    ParsePrintString(m.patternSyntax, PrintString(m.timeZoneId) + last);
    ParsePrintString(m.pattern, PrintString(m.patternSyntax) + (PrintString(m.timeZoneId) + last));
  }

  // ----- Preambles -----

  function ParsePreamble(s: Bytes): (p: Preamble)
    ensures p.Preamble? ==> 1 <= p.size <= |s|
  {
    if |s| == 0 then PreambleIncomplete
    else if s[0] > 1 then PreambleCorrupt
    else if |s| < PREFIX then PreambleIncomplete
    else
      var end := PREFIX + DecodeNat(s, 2, 2);
      if |s| < end then PreambleIncomplete
      else if s[1] != JSON_METADATA then PreambleUnsupported
      else
        match ParseMetadata(s[PREFIX..end])
        case None => PreambleBadMetadata
        case Some(m) => Preamble(if s[0] == 1 then FourByte else EightByte, m, end)
  }

  /** The serializer refuses metadata whose size does not fit its 16 bit length. */
  predicate PrintableMetadata(m: Metadata) {
    |PrintMetadata(m)| < 0x1_0000
  }

  function PrintPreamble(enc: Encoding, m: Metadata): Bytes
    requires PrintableMetadata(m)
  {
    [if enc.FourByte? then 1 else 0, JSON_METADATA] + EncodeNat(|PrintMetadata(m)|, 2) + PrintMetadata(m)
  }

  lemma ParsePrintPreamble(enc: Encoding, m: Metadata, rest: Bytes)
    requires PrintableMetadata(m)
    ensures ParsePreamble(PrintPreamble(enc, m) + rest) == Preamble(enc, m, |PrintPreamble(enc, m)|)
  {
    var data := PrintMetadata(m);
    PreambleParts(enc, data, rest);
    ParsePrintMetadata(m);
  }

  lemma PreambleParts(enc: Encoding, data: Bytes, rest: Bytes)
    requires |data| < 0x1_0000
    ensures var s := [if enc.FourByte? then 1 else 0, JSON_METADATA] + EncodeNat(|data|, 2) + data + rest;
            |s| == 4 + |data| + |rest| && DecodeNat(s, 2, 2) == |data| && s[4..4 + |data|] == data
  {
    var s := [if enc.FourByte? then 1 else 0, JSON_METADATA] + EncodeNat(|data|, 2) + data + rest;
    Pow256Values();
    assert s[2..4] == EncodeNat(|data|, 2);
    NatRoundTrip(s, 2, |data|, 2);
  }

  /** A preamble is read from its own bytes. */
  lemma SamePreamble(s: Bytes, t: Bytes, size: nat)
    requires |s| >= PREFIX && size == PREFIX + DecodeNat(s, 2, 2) <= |s|
    requires size <= |t| && forall i | 0 <= i < size :: s[i] == t[i]
    ensures ParsePreamble(t) == ParsePreamble(s)
  {
    DecodeNatLocal(s, t, 2, 2);
    assert s[PREFIX..size] == t[PREFIX..size];
  }

  lemma PreambleStable(s: Bytes, more: Bytes)
    requires !ParsePreamble(s).PreambleIncomplete?
    ensures ParsePreamble(s + more) == ParsePreamble(s)
  {
    if |s| >= PREFIX && PREFIX + DecodeNat(s, 2, 2) <= |s| {
      SamePreamble(s, s + more, PREFIX + DecodeNat(s, 2, 2));
    }
  }

  /** A preamble is decided by its own bytes. */
  lemma PreambleLocal(s: Bytes, n: nat)
    requires ParsePreamble(s).Preamble?
    requires ParsePreamble(s).size <= n <= |s|
    ensures ParsePreamble(s[..n]) == ParsePreamble(s)
  {
    SamePreamble(s, s[..n], ParsePreamble(s).size);
  }
}
