/** Bytes, 64-bit timestamps and the values shared by the reader and the writer. */
module Base {
  type Byte = b: int | 0 <= b < 256
  type Bytes = seq<Byte>
  type Int64 = x: int | -0x8000_0000_0000_0000 <= x < 0x8000_0000_0000_0000

  const MAX_INT64: Int64 := 0x7FFF_FFFF_FFFF_FFFF

  datatype Option<+T> = None | Some(value: T)

  datatype Result<+T> = Success(value: T) | Failure(error: Error)

  /** Eight-byte streams store absolute timestamps, four-byte streams store differences. */
  datatype Encoding = EightByte | FourByte

  datatype Event = Event(message: Bytes, timestamp: Int64)

  datatype Error =
    | EndOfIr
    | CorruptedIr
    | IncompleteIr
    | QueryNotFound
    | UnsupportedVersion
    | MetadataError
    | SourceError(code: int)

  /** What one deserializer call answers. Positions count from the front of the bytes it was given. */
  datatype Answer =
    | Opened(enc: Encoding, pattern: Bytes, patternSyntax: Bytes, timeZoneId: Bytes, pos: nat)
    | Got(event: Event, pos: nat)
    | Matched(event: Event, pos: nat, query: nat)
    | Failed(error: Error)
  {
    /** The bytes the caller drops after this answer. */
    function Used(): nat {
      if Failed? then 0 else pos
    }
  }

  /** An answer together with the timestamp the deserializer is left with. */
  datatype Try = Try(answer: Answer, timestamp: Int64)
  {
    predicate Incomplete() {
      answer == Failed(IncompleteIr)
    }
  }

  const TWO64 := 0x1_0000_0000_0000_0000

  /** Two's complement reduction to 64 bits. */
  function Wrap64(x: int): Int64
    decreases if x > MAX_INT64 then x - MAX_INT64 else if x < -MAX_INT64 - 1 then -x else 0
  {
    if x > MAX_INT64 then Wrap64(x - TWO64) else if x < -MAX_INT64 - 1 then Wrap64(x + TWO64) else x
  }

  /** The difference the four-byte serializer stores. */
  function Delta(previous: Int64, timestamp: Int64): Int64 {
    Wrap64(timestamp - previous)
  }

  /** The deserializer's accumulation of one difference. */
  function Advance(base: Int64, delta: Int64): Int64 {
    Wrap64(base + delta)
  }

  /** What a frame stores for an event stamped `timestamp` that follows one stamped `previous`. */
  function Field(enc: Encoding, previous: Int64, timestamp: Int64): Int64 {
    match enc
    case EightByte => timestamp
    case FourByte => Delta(previous, timestamp)
  }

  /** The timestamp a frame's field stands for when the deserializer's base is `base`. */
  function Stamp(enc: Encoding, base: Int64, field: Int64): Int64 {
    match enc
    case EightByte => field
    case FourByte => Advance(base, field)
  }

  /** The reduction is the only 64 bit number that differs by a multiple of 2^64. */
  lemma {:induction false} WrapUnique(x: int, r: Int64, q: int)
    requires x == r + q * TWO64
    ensures Wrap64(x) == r
    decreases if q < 0 then -q else q
  {
    if q > 0 {
      WrapUnique(x - TWO64, r, q - 1);
    } else if q < 0 {
      WrapUnique(x + TWO64, r, q + 1);
    }
  }

  lemma {:induction false} WrapQuotient(x: int) returns (q: int)
    ensures x == Wrap64(x) + q * TWO64
    decreases if x > MAX_INT64 then x - MAX_INT64 else if x < -MAX_INT64 - 1 then -x else 0
  {
    q := 0;
    if x > MAX_INT64 {
      q := WrapQuotient(x - TWO64);
      q := q + 1;
    } else if x < -MAX_INT64 - 1 {
      q := WrapQuotient(x + TWO64);
      q := q - 1;
    }
  }

  lemma WrapAbsorbs(x: int, y: int)
    ensures Wrap64(Wrap64(x) + y) == Wrap64(x + y)
  {
    var q := WrapQuotient(x);
    var p := WrapQuotient(x + y);
    WrapUnique(Wrap64(x) + y, Wrap64(x + y), p - q);
  }

  lemma WrapTwice(t: int, first: int, second: int)
    ensures Wrap64(Wrap64(t + first) + second) == Wrap64(t + (first + second))
  {
    WrapAbsorbs(t + first, second);
    assert t + first + second == t + (first + second);
  }

  /** `moved` is `base` plus `amount`, modulo 2^64. */
  predicate MovedBy(base: Int64, amount: int, moved: Int64) {
    moved == Wrap64(base + amount)
  }

  lemma AdvanceMoves(base: Int64, delta: Int64)
    ensures MovedBy(base, delta, Advance(base, delta))
  {
  }

  lemma MovesAdd(base: Int64, first: int, second: int, middle: Int64, end: Int64)
    requires MovedBy(base, first, middle) && MovedBy(middle, second, end)
    ensures MovedBy(base, first + second, end)
  {
    WrapAbsorbs(base + first, second);
  }

  /** A shift leaves a timestamp in place exactly when it is a multiple of 2^64. */
  lemma ShiftVanishesIff(base: Int64, shift: int, moved: Int64)
    requires MovedBy(base, shift, moved)
    ensures moved == base <==> Wrap64(shift) == 0
  {
    var q := WrapQuotient(shift);
    if Wrap64(shift) == 0 {
      WrapUnique(base + shift, base, q);
    }
    var p := WrapQuotient(base + shift);
    if moved == base {
      WrapUnique(shift, 0, p);
    }
  }

  /** The reader's accumulation undoes the writer's subtraction, whatever the two timestamps are. */
  lemma StampUndoesField(enc: Encoding, previous: Int64, timestamp: Int64)
    ensures Stamp(enc, previous, Field(enc, previous, timestamp)) == timestamp
  {
    var q := WrapQuotient(timestamp - previous);
    WrapUnique(previous + Delta(previous, timestamp), timestamp, -q);
  }

  /** Where no result leaves the int64 range the stored difference is the difference, and the accumulated
      timestamp the sum. */
  lemma DifferencesAreTrue(previous: Int64, timestamp: Int64, base: Int64, delta: Int64)
    ensures -0x8000_0000_0000_0000 <= timestamp - previous < 0x8000_0000_0000_0000 ==>
              Field(FourByte, previous, timestamp) == timestamp - previous
    ensures -0x8000_0000_0000_0000 <= base + delta < 0x8000_0000_0000_0000 ==>
              Stamp(FourByte, base, delta) == base + delta
    ensures Field(EightByte, previous, timestamp) == timestamp && Stamp(EightByte, base, delta) == delta
  {
    if -0x8000_0000_0000_0000 <= timestamp - previous < 0x8000_0000_0000_0000 {
      WrapUnique(timestamp - previous, timestamp - previous, 0);
    }
    if -0x8000_0000_0000_0000 <= base + delta < 0x8000_0000_0000_0000 {
      WrapUnique(base + delta, base + delta, 0);
    }
  }

  /** The signed addition in the deserializer leaves the int64 range exactly when the true
      difference of the two timestamps does not fit 64 bits. */
  lemma AdditionInRangeIffDifferenceFits(previous: Int64, timestamp: Int64)
    ensures -0x8000_0000_0000_0000 <= previous + Delta(previous, timestamp) < 0x8000_0000_0000_0000
            <==> -0x8000_0000_0000_0000 <= timestamp - previous < 0x8000_0000_0000_0000
  {
    var q := WrapQuotient(timestamp - previous);
  }

  /** A base that is off by `shift` stays off by `shift`. */
  lemma AdvanceShifts(base: Int64, shift: int, delta: Int64)
    ensures Advance(Wrap64(base + shift), delta) == Wrap64(Advance(base, delta) + shift)
  {
    WrapAbsorbs(base + shift, delta);
    WrapAbsorbs(base + delta, shift);
  }

  /** Adding the same difference to two bases keeps them apart. */
  lemma AdvanceInjective(a: Int64, b: Int64, delta: Int64)
    requires Advance(a, delta) == Advance(b, delta)
    ensures a == b
  {
    var p := WrapQuotient(a + delta);
    var q := WrapQuotient(b + delta);
  }

  lemma ConcatAssociates(a: Bytes, b: Bytes, c: Bytes)
    ensures a + b + c == a + (b + c)
  {
  }
}
