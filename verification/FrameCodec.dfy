/**
 A small concrete frame format standing in for CLP's: one tag byte, an eight byte timestamp field,
 a four byte message length and the message. A zero tag ends the stream. The byte layout is not
 CLP's; what the reader and the writer rely on is proved about it below.
 */
module FrameCodec {
  import opened Base

  const EOF_TAG: Byte := 0x0
  const EVENT_TAG: Byte := 0x1
  /** Bytes of a frame before its message. */
  const HEADER := 13

  // ----- Big-endian numbers -----

  function EncodeNat(n: nat, width: nat): (s: Bytes)
    ensures |s| == width
  {
    if width == 0 then [] else EncodeNat(n / 256, width - 1) + [n % 256]
  }

  /** The number in the `width` bytes of `s` at `pos`. */
  function DecodeNat(s: Bytes, pos: nat, width: nat): nat
    requires pos + width <= |s|
  {
    if width == 0 then 0 else DecodeNat(s, pos, width - 1) * 256 + s[pos + width - 1]
  }

  function Pow256(width: nat): nat {
    if width == 0 then 1 else 256 * Pow256(width - 1)
  }

  lemma Pow256Values()
    ensures Pow256(2) == 0x1_0000
    ensures Pow256(4) == 0x1_0000_0000
    ensures Pow256(8) == 0x1_0000_0000_0000_0000
  {
    assert Pow256(2) == 0x1_0000;
    assert Pow256(4) == 256 * (256 * Pow256(2));
    assert Pow256(6) == 256 * (256 * Pow256(4));
    assert Pow256(8) == 256 * (256 * Pow256(6));
  }

  /** Only the bytes at the position count. */
  lemma {:induction false} DecodeNatLocal(s: Bytes, t: Bytes, pos: nat, width: nat)
    requires pos + width <= |s| && pos + width <= |t|
    requires forall i | pos <= i < pos + width :: s[i] == t[i]
    ensures DecodeNat(s, pos, width) == DecodeNat(t, pos, width)
  {
    if width > 0 {
      DecodeNatLocal(s, t, pos, width - 1);
    }
  }

  /** Decoding undoes encoding, wherever the bytes lie. */
  lemma {:induction false} NatRoundTrip(s: Bytes, pos: nat, n: nat, width: nat)
    requires n < Pow256(width)
    requires pos + width <= |s| && s[pos..pos + width] == EncodeNat(n, width)
    ensures DecodeNat(s, pos, width) == n
  {
    if width > 0 {
      var code := s[pos..pos + width];
      assert s[pos..pos + (width - 1)] == code[..width - 1] == EncodeNat(n / 256, width - 1);
      assert s[pos + width - 1] == code[width - 1] == n % 256;
      NatRoundTrip(s, pos, n / 256, width - 1);
    }
  }

  function EncodeInt64(x: Int64): (s: Bytes)
    ensures |s| == 8
  {
    EncodeNat(if x < 0 then x + 0x1_0000_0000_0000_0000 else x, 8)
  }

  function DecodeInt64(s: Bytes, pos: nat): Int64
    requires pos + 8 <= |s|
  {
    Wrap64(DecodeNat(s, pos, 8))
  }

  lemma Int64RoundTrip(s: Bytes, pos: nat, x: Int64)
    requires pos + 8 <= |s| && s[pos..pos + 8] == EncodeInt64(x)
    ensures DecodeInt64(s, pos) == x
  {
    Pow256Values();
    NatRoundTrip(s, pos, if x < 0 then x + 0x1_0000_0000_0000_0000 else x, 8);
    WrapUnique(DecodeNat(s, pos, 8), x, if x < 0 then 1 else 0);
  }

  // ----- Frames -----

  datatype Parsed =
    | Incomplete
    | Corrupt
    | Eof
    | Frame(field: Int64, message: Bytes, size: nat)

  /** The frame at the front of `s`: its tag, then, unless the tag ends the stream, its body. */
  function Parse(s: Bytes): (p: Parsed)
    ensures p.Frame? ==> 1 <= p.size <= |s|
  {
    if |s| == 0 then Incomplete
    else if s[0] == EOF_TAG then Eof
    else if s[0] != EVENT_TAG then Corrupt
    else if |s| < HEADER then Incomplete
    else
      var end := HEADER + DecodeNat(s, 9, 4);
      if |s| < end then Incomplete else Frame(DecodeInt64(s, 1), s[HEADER..end], end)
  }

  /** The serializer refuses messages whose length does not fit the length field. */
  predicate Printable(message: Bytes) {
    |message| < 0x1_0000_0000
  }

  function Print(field: Int64, message: Bytes): Bytes
    requires Printable(message)
  {
    [EVENT_TAG] + EncodeInt64(field) + EncodeNat(|message|, 4) + message
  }

  /** Which bytes give which answer. */
  lemma TagsTell(s: Bytes)
    ensures Parse(s).Eof? <==> |s| > 0 && s[0] == 0x0
    ensures Parse(s).Corrupt? <==> |s| > 0 && s[0] != 0x0 && s[0] != 0x1
    ensures Parse(s).Incomplete? <==>
              |s| == 0 || (s[0] == 0x1 && (|s| < 13 || |s| < 13 + DecodeNat(s, 9, 4)))
    ensures Parse(s).Frame? ==>
              && s[0] == 0x1 && Parse(s).size == 13 + |Parse(s).message| <= |s|
              && Parse(s).message == s[13..Parse(s).size] && Parse(s).field == DecodeInt64(s, 1)
  {
  }

  lemma ParsePrint(field: Int64, message: Bytes, rest: Bytes)
    requires Printable(message)
    ensures Parse(Print(field, message) + rest) == Frame(field, message, |Print(field, message)|)
  {
    var s := Print(field, message) + rest;
    Pow256Values();
    assert s[1..9] == EncodeInt64(field);
    Int64RoundTrip(s, 1, field);
    assert s[9..13] == EncodeNat(|message|, 4);
    NatRoundTrip(s, 9, |message|, 4);
    assert s[13..13 + |message|] == message;
  }

  /** A frame is read from its own bytes. */
  lemma SameFrame(s: Bytes, t: Bytes)
    requires Parse(s).Frame? && Parse(s).size <= |t|
    requires forall i | 0 <= i < Parse(s).size :: s[i] == t[i]
    ensures Parse(t) == Parse(s)
  {
    DecodeNatLocal(s, t, 1, 8);
    DecodeNatLocal(s, t, 9, 4);
    assert s[HEADER..Parse(s).size] == t[HEADER..Parse(s).size];
  }

  /** More bytes never change an answer other than Incomplete. */
  lemma ParseStable(s: Bytes, more: Bytes)
    requires !Parse(s).Incomplete?
    ensures Parse(s + more) == Parse(s)
  {
    if Parse(s).Frame? {
      SameFrame(s, s + more);
    }
  }

  /** How many bytes decide the answer at the front of `s`. */
  function Need(s: Bytes): nat
    requires !Parse(s).Incomplete?
  {
    if Parse(s).Frame? then Parse(s).size else 1
  }

  /** An answer is decided by its own bytes: any prefix that contains them gives it. */
  lemma ParseLocal(s: Bytes, n: nat)
    requires !Parse(s).Incomplete?
    requires Need(s) <= n <= |s|
    ensures Parse(s[..n]) == Parse(s)
  {
    if Parse(s).Frame? {
      SameFrame(s, s[..n]);
    }
  }
}
