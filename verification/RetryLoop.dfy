/**
 The retry loop shared by NewReaderSize, Read and the wildcard read, on values: attempt a decoding
 call on the window; when the window is too short, refill it from the source and attempt again. The
 loop is studied for any decoding call; DecodingCalls.dfy gives the three the reader makes.
 */
module RetryLoop {
  import opened Base

  // ----- The source -----

  datatype SourceStatus = Fine | EndOfFile | Broken(code: int)

  /** How the source answers one read: at most this many bytes, with this error value. */
  datatype Step = Step(count: nat, status: SourceStatus)

  /** The bytes not delivered yet, and the answers to the reads to come. After its plan, which may prescribe
      any chunks, the source delivers what fits, and EOF once nothing is left. */
  datatype Feed = Feed(rest: Bytes, plan: seq<Step>)

  datatype Delivery = Delivery(data: Bytes, status: SourceStatus, feed: Feed)

  function Deliver(f: Feed, room: nat): (d: Delivery)
    ensures |d.data| <= room
  {
    if f.plan == [] then
      var n := Min(room, |f.rest|);
      Delivery(f.rest[..n], if f.rest == [] then EndOfFile else Fine, Feed(f.rest[n..], []))
    else
      var n := Min(f.plan[0].count, Min(room, |f.rest|));
      Delivery(f.rest[..n], f.plan[0].status, Feed(f.rest[n..], f.plan[1..]))
  }

  function Min(a: nat, b: nat): nat {
    if a <= b then a else b
  }

  function Max(a: nat, b: nat): nat {
    if a <= b then b else a
  }

  /** Reads enough for the source to deliver everything, one byte at a time after its plan. */
  function Patience(f: Feed): nat {
    |f.plan| + |f.rest|
  }

  predicate NeverBreaks(plan: seq<Step>) {
    forall i | 0 <= i < |plan| :: !plan[i].status.Broken?
  }

  lemma DeliverConserves(f: Feed, room: nat)
    ensures Deliver(f, room).data + Deliver(f, room).feed.rest == f.rest
  {
  }

  // ----- Decoding calls -----

  /** A decoding call: from a timestamp and a window to an answer and a new timestamp. */
  type Decoder = f: (Int64, Bytes) -> Try | StaysInside(f) witness (_, _) => Try(Failed(IncompleteIr), 0)

  ghost predicate StaysInside(f: (Int64, Bytes) -> Try) {
    forall base, window :: f(base, window).answer.Used() <= |window|
  }

  /** More bytes never change an answer other than Incomplete. */
  ghost predicate Stable(f: Decoder) {
    forall base, window, more ::
      !f(base, window).Incomplete() ==> f(base, window + more) == f(base, window)
  }

  /** A call that runs out of bytes leaves the timestamp alone. */
  ghost predicate KeepsTimestamp(f: Decoder) {
    forall base, window :: f(base, window).Incomplete() ==> f(base, window).timestamp == base
  }

  /** No later answer can tell that a call has run out of bytes before. */
  ghost predicate Repeatable(f: Decoder) {
    forall base, window, later ::
      f(base, window).Incomplete() ==> f(f(base, window).timestamp, later).answer == f(base, later).answer
  }

  /** The call forwards no error of the source. */
  ghost predicate OwnAnswers(f: Decoder) {
    forall base, window :: var a := f(base, window).answer; !(a.Failed? && a.error.SourceError?)
  }

  /** A call that runs out of bytes adds `weight` of its window to the timestamp. */
  ghost predicate Accumulates(f: Decoder, weight: Bytes -> int) {
    forall base, window ::
      f(base, window).Incomplete() ==> MovedBy(base, weight(window), f(base, window).timestamp)
  }

  // ----- The machine -----

  /** The deserializer's timestamp, the unconsumed window, the buffer's size and the source. */
  datatype Machine = Machine(timestamp: Int64, window: Bytes, capacity: nat, feed: Feed)
  {
    predicate Valid() {
      |window| <= capacity
    }

    /** Everything not consumed yet. */
    function Remaining(): Bytes {
      window + feed.rest
    }
  }

  /** The buffer's size after fillBuf: doubled if more than half of it is unconsumed. */
  function Grown(m: Machine): nat {
    if |m.window| > m.capacity / 2 then m.capacity * 2 else m.capacity
  }

  datatype Refilled = Refilled(m: Machine, status: SourceStatus)

  function Refill(m: Machine): (r: Refilled)
    requires m.Valid()
    ensures r.m.Valid()
  {
    var d := Deliver(m.feed, Grown(m) - |m.window|);
    Refilled(Machine(m.timestamp, m.window + d.data, Grown(m), d.feed), d.status)
  }

  /** `Done` when the loop has returned, `Pending` when it is about to refill once more. */
  datatype Outcome = Done(answer: Answer, m: Machine) | Pending(m: Machine)
  {
    function Used(): nat {
      if Done? then answer.Used() else 0
    }

    /** The answer comes from the deserializer, not from the source. */
    predicate Genuine() {
      Done? && !(answer.Failed? && answer.error.SourceError?)
    }
  }

  /** The machine once an attempt has left `timestamp`. */
  function Stamped(m: Machine, timestamp: Int64): Machine {
    m.(timestamp := timestamp)
  }

  /** The machine once the bytes of `answer` have been dropped. */
  function Consumed(m: Machine, answer: Answer): Machine
    requires answer.Used() <= |m.window|
  {
    if answer.Failed? then m else m.(window := m.window[answer.pos..])
  }

  /** The loop run with at most `refills` refills. */
  function Retry(f: Decoder, m: Machine, refills: nat): (o: Outcome)
    requires m.Valid()
    ensures o.m.Valid()
    decreases refills
  {
    var t := f(m.timestamp, m.window);
    var m1 := Stamped(m, t.timestamp);
    if !t.Incomplete() then Done(t.answer, Consumed(m1, t.answer))
    else if refills == 0 then Pending(m1)
    else
      var r := Refill(m1);
      if r.status.Broken? then Done(Failed(SourceError(r.status.code)), r.m)
      else Retry(f, r.m, refills - 1)
  }

  /** The constructor's run: one read into the empty buffer, then the loop. */
  function Construct(f: Decoder, size: nat, feed: Feed, refills: nat): (o: Outcome)
    ensures o.m.Valid()
  {
    var d := Deliver(feed, size);
    var m := Machine(0, d.data, size, d.feed);
    if d.status.Broken? then Done(Failed(SourceError(d.status.code)), m) else Retry(f, m, refills)
  }

  /** The attempt on `m` runs out of bytes and, `refills` permitting, the loop goes on from `Next`. */
  predicate GoesOn(f: Decoder, m: Machine, refills: nat)
    requires m.Valid()
  {
    var t := f(m.timestamp, m.window);
    t.Incomplete() && refills > 0 && !Refill(Stamped(m, t.timestamp)).status.Broken?
  }

  function Next(f: Decoder, m: Machine): (n: Machine)
    requires m.Valid()
    ensures n.Valid()
  {
    Refill(Stamped(m, f(m.timestamp, m.window).timestamp)).m
  }

  /** The loop from `m` returns `o` after at most `refills` refills, told turn by turn. */
  predicate Gives(f: Decoder, m: Machine, refills: nat, o: Outcome)
    decreases refills
  {
    m.Valid() && o.Done? &&
    var t := f(m.timestamp, m.window);
    if !t.Incomplete() then o == Done(t.answer, Consumed(Stamped(m, t.timestamp), t.answer))
    else
      refills > 0 &&
      var r := Refill(Stamped(m, t.timestamp));
      if r.status.Broken? then o == Done(Failed(SourceError(r.status.code)), r.m)
      else Gives(f, r.m, refills - 1, o)
  }

  lemma {:induction false} GivesIffReturns(f: Decoder, m: Machine, refills: nat, o: Outcome)
    requires m.Valid()
    ensures Gives(f, m, refills, o) <==> o.Done? && Retry(f, m, refills) == o
    decreases refills
  {
    if GoesOn(f, m, refills) {
      GivesIffReturns(f, Next(f, m), refills - 1, o);
    }
  }

  /** More allowed refills do not change a loop that has returned. */
  lemma {:induction false} RetryMonotone(f: Decoder, m: Machine, refills: nat, more: nat)
    requires m.Valid() && refills <= more && Retry(f, m, refills).Done?
    ensures Retry(f, m, more) == Retry(f, m, refills)
    decreases refills
  {
    if GoesOn(f, m, refills) {
      RetryMonotone(f, Next(f, m), refills - 1, more - 1);
    }
  }

  /** The loop returns at its first attempt, or with a source error, or from its next machine. */
  lemma ReturnsStep(f: Decoder, m: Machine, refills: nat)
    requires m.Valid()
    ensures Retry(f, m, refills).Done?
            <==> || !f(m.timestamp, m.window).Incomplete()
                 || (refills > 0 && !GoesOn(f, m, refills))
                 || (GoesOn(f, m, refills) && Retry(f, Next(f, m), refills - 1).Done?)
  {
  }

  /** What becomes of a loop that is about to refill `n`. */
  function Refilling(f: Decoder, n: Machine, more: nat): Outcome
    requires n.Valid()
  {
    var r := Refill(n);
    if r.status.Broken? then Done(Failed(SourceError(r.status.code)), r.m) else Retry(f, r.m, more)
  }

  /** A loop that is pending after some refills has gone on from its next machine, and would have with more. */
  lemma PendingWentOn(f: Decoder, m: Machine, refills: nat, all: nat)
    requires m.Valid() && 0 < refills <= all && Retry(f, m, refills).Pending?
    ensures Retry(f, m, refills) == Retry(f, Next(f, m), refills - 1)
    ensures Retry(f, m, all) == Retry(f, Next(f, m), all - 1)
  {
  }

  lemma PendingAtOnce(f: Decoder, m: Machine, n: Machine, more: nat)
    requires m.Valid() && n.Valid() && Retry(f, m, 0) == Pending(n)
    ensures Retry(f, m, 1 + more) == Refilling(f, n, more)
  {
  }

  /** A loop stopped before a refill goes on behind it. */
  lemma {:induction false} RetryContinues(
    f: Decoder, m: Machine, refills: nat, n: Machine, more: nat, all: nat, o: Outcome)
    requires m.Valid() && n.Valid() && Retry(f, m, refills) == Pending(n) && all == refills + 1 + more
    requires o == Refilling(f, n, more)
    ensures Retry(f, m, all) == o
    decreases refills
  {
    if refills == 0 {
      PendingAtOnce(f, m, n, more);
    } else {
      PendingWentOn(f, m, refills, all);
      RetryContinues(f, Next(f, m), refills - 1, n, more, all - 1, o);
    }
  }

  // ----- Conservation -----

  lemma RefillConserves(m: Machine)
    requires m.Valid()
    ensures Refill(m).m.Remaining() == m.Remaining()
    ensures Refill(m).m.timestamp == m.timestamp
  {
    var d := Deliver(m.feed, Grown(m) - |m.window|);
    DeliverConserves(m.feed, Grown(m) - |m.window|);
    ConcatAssociates(m.window, d.data, d.feed.rest);
  }

  /** At every point of the loop, after a source error too, what is left of the stream is the window
      followed by the undelivered bytes. */
  lemma {:induction false} RetryConserves(f: Decoder, m: Machine, refills: nat)
    requires m.Valid()
    ensures var o := Retry(f, m, refills);
            o.Used() <= |m.Remaining()| && o.m.Remaining() == m.Remaining()[o.Used()..]
    decreases refills
  {
    var t := f(m.timestamp, m.window);
    RefillConserves(Stamped(m, t.timestamp));
    if GoesOn(f, m, refills) {
      RetryConserves(f, Next(f, m), refills - 1);
    } else if !t.Incomplete() {
      assert m.window[t.answer.Used()..] + m.feed.rest == m.Remaining()[t.answer.Used()..];
    }
  }

  // ----- The source's errors -----

  /** From `before` to `after` some planned reads were made; `broken` is the error of the last of them, and no
      other of them reported one. */
  predicate Asked(before: Feed, after: Feed, broken: Option<int>) {
    && |after.plan| <= |before.plan|
    && var made := |before.plan| - |after.plan|;
    && after.plan == before.plan[made..]
    && (broken.Some? ==> made > 0 && before.plan[made - 1].status == Broken(broken.value))
    && (forall j | 0 <= j < made :: before.plan[j].status.Broken? ==> j == made - 1 && broken.Some?)
  }

  /** The error of the source that an outcome forwards. */
  function Forwarded(o: Outcome): Option<int> {
    if o.Done? && o.answer.Failed? && o.answer.error.SourceError? then Some(o.answer.error.code) else None
  }

  lemma AskedFirst(before: Feed, middle: Feed, after: Feed, room: nat, broken: Option<int>)
    requires middle == Deliver(before, room).feed && !Deliver(before, room).status.Broken?
    requires Asked(middle, after, broken)
    ensures Asked(before, after, broken)
  {
    if before.plan != [] {
      assert middle.plan == before.plan[1..];
      assert forall j | 1 <= j < |before.plan| :: before.plan[j] == middle.plan[j - 1];
    }
  }

  lemma AskedOnce(before: Feed, room: nat)
    ensures var d := Deliver(before, room);
            Asked(before, d.feed, if d.status.Broken? then Some(d.status.code) else None)
  {
  }

  /** The last turn of the loop asks for nothing, or for the read it forwards the error of. */
  lemma LastTurnAsks(f: Decoder, m: Machine, refills: nat, o: Outcome)
    requires m.Valid() && OwnAnswers(f) && !GoesOn(f, m, refills) && o == Retry(f, m, refills)
    ensures Asked(m.feed, o.m.feed, Forwarded(o))
  {
    AskedOnce(m.feed, Grown(m) - |m.window|);
    assert m.feed.plan[0..] == m.feed.plan;
  }

  /** The loop makes planned reads in order, stops at the first one that reports an error, and forwards that
      error and no other. */
  lemma {:induction false} RetryAsks(f: Decoder, m: Machine, refills: nat, o: Outcome)
    requires m.Valid() && OwnAnswers(f) && o == Retry(f, m, refills)
    ensures Asked(m.feed, o.m.feed, Forwarded(o))
    decreases refills
  {
    if GoesOn(f, m, refills) {
      RetryAsks(f, Next(f, m), refills - 1, o);
      AskedFirst(m.feed, Next(f, m).feed, o.m.feed, Grown(m) - |m.window|, Forwarded(o));
    } else {
      LastTurnAsks(f, m, refills, o);
    }
  }

  /** The constructor's first read counts too. */
  lemma ConstructAsks(f: Decoder, size: nat, feed: Feed, refills: nat)
    requires OwnAnswers(f)
    ensures var o := Construct(f, size, feed, refills);
            && Asked(feed, o.m.feed, Forwarded(o))
            && (feed.plan != [] ==> |o.m.feed.plan| < |feed.plan|)
  {
    var d := Deliver(feed, size);
    var o := Construct(f, size, feed, refills);
    AskedOnce(feed, size);
    if !d.status.Broken? {
      RetryAsks(f, Machine(0, d.data, size, d.feed), refills, o);
      AskedFirst(feed, d.feed, o.m.feed, size, Forwarded(o));
    }
  }

  /** Calls that answer alike make loops that come to the same. */
  lemma {:induction false} RetrySame(f: Decoder, g: Decoder, m: Machine, refills: nat)
    requires m.Valid() && forall base, window :: f(base, window) == g(base, window)
    ensures Retry(f, m, refills) == Retry(g, m, refills)
    decreases refills
  {
    if GoesOn(f, m, refills) {
      RetrySame(f, g, Next(f, m), refills - 1);
    }
  }

  // ----- Refinement -----

  /** The timestamp the last attempt of the loop starts from. */
  function FinalBase(f: Decoder, m: Machine, refills: nat): Int64
    requires m.Valid()
    decreases refills
  {
    if GoesOn(f, m, refills) then FinalBase(f, Next(f, m), refills - 1) else m.timestamp
  }

  /** The window the last attempt of the loop is made on. */
  function FinalWindow(f: Decoder, m: Machine, refills: nat): Bytes
    requires m.Valid()
    decreases refills
  {
    if GoesOn(f, m, refills) then FinalWindow(f, Next(f, m), refills - 1) else m.window
  }

  /** The timestamp the loop leaves is that of its last attempt, whatever its outcome; a failure of the call's
      own leaves that attempt's window. */
  lemma {:induction false} LastAttempt(f: Decoder, m: Machine, refills: nat)
    requires m.Valid()
    ensures var o, t := Retry(f, m, refills), f(FinalBase(f, m, refills), FinalWindow(f, m, refills));
            && o.m.timestamp == t.timestamp
            && (o.Genuine() ==> o.answer == t.answer && !t.Incomplete())
            && (o.Genuine() && o.answer.Failed? ==> o.m.window == FinalWindow(f, m, refills))
            && (t.answer.Failed? && !t.Incomplete() ==> o == Done(t.answer, o.m))
            && FinalWindow(f, m, refills) <= m.Remaining()
    decreases refills
  {
    RefillConserves(Stamped(m, f(m.timestamp, m.window).timestamp));
    if GoesOn(f, m, refills) {
      LastAttempt(f, Next(f, m), refills - 1);
    }
  }

  /** However the bytes arrived, the loop's answer is that of a single attempt on all that remained,
      from the base its last attempt had. */
  lemma {:induction false} RetryIsOneAttempt(f: Decoder, m: Machine, refills: nat)
    requires m.Valid() && Stable(f) && Retry(f, m, refills).Genuine()
    ensures var o, t := Retry(f, m, refills), f(FinalBase(f, m, refills), m.Remaining());
            o.answer == t.answer && o.m.timestamp == t.timestamp && !t.Incomplete()
    decreases refills
  {
    RefillConserves(Stamped(m, f(m.timestamp, m.window).timestamp));
    if GoesOn(f, m, refills) {
      RetryIsOneAttempt(f, Next(f, m), refills - 1);
    } else {
      assert f(m.timestamp, m.window + m.feed.rest) == f(m.timestamp, m.window);
    }
  }

  /** For a repeatable call the chunks cannot be seen: the answer is that of the whole remaining
      stream, from the timestamp the caller left. */
  lemma {:induction false} RetryRefines(f: Decoder, m: Machine, refills: nat)
    requires m.Valid() && Stable(f) && Repeatable(f) && Retry(f, m, refills).Genuine()
    ensures Retry(f, m, refills).answer == f(m.timestamp, m.Remaining()).answer
    decreases refills
  {
    RefillConserves(Stamped(m, f(m.timestamp, m.window).timestamp));
    if GoesOn(f, m, refills) {
      RetryRefines(f, Next(f, m), refills - 1);
    } else {
      assert f(m.timestamp, m.window + m.feed.rest) == f(m.timestamp, m.window);
    }
  }

  /** For a call that keeps the timestamp the last attempt starts from the caller's timestamp, and a
      loop the source cut short leaves it there. */
  lemma {:induction false} TimestampIsKept(f: Decoder, m: Machine, refills: nat)
    requires m.Valid() && KeepsTimestamp(f) && OwnAnswers(f)
    ensures FinalBase(f, m, refills) == m.timestamp
    ensures !Retry(f, m, refills).Genuine() ==> Retry(f, m, refills).m.timestamp == m.timestamp
    decreases refills
  {
    RefillConserves(Stamped(m, f(m.timestamp, m.window).timestamp));
    if GoesOn(f, m, refills) {
      TimestampIsKept(f, Next(f, m), refills - 1);
    }
  }

  // ----- Drift -----

  /** What the failed attempts of the loop add up to, each window weighed once per attempt. */
  function Drift(f: Decoder, weight: Bytes -> int, m: Machine, refills: nat): int
    requires m.Valid()
    decreases refills
  {
    if GoesOn(f, m, refills) then weight(m.window) + Drift(f, weight, Next(f, m), refills - 1) else 0
  }

  lemma NextIsMoved(f: Decoder, weight: Bytes -> int, m: Machine)
    requires m.Valid() && Accumulates(f, weight) && f(m.timestamp, m.window).Incomplete()
    ensures MovedBy(m.timestamp, weight(m.window), Next(f, m).timestamp)
  {
  }

  lemma NoDrift(base: Int64)
    ensures MovedBy(base, 0, base)
  {
    WrapUnique(base, base, 0);
  }

  /** Each failed attempt adds its window's weight to the base of the next one. */
  lemma {:induction false} DriftLaw(f: Decoder, weight: Bytes -> int, m: Machine, refills: nat)
    requires m.Valid() && Accumulates(f, weight)
    ensures MovedBy(m.timestamp, Drift(f, weight, m, refills), FinalBase(f, m, refills))
    decreases refills
  {
    if GoesOn(f, m, refills) {
      var n := Next(f, m);
      NextIsMoved(f, weight, m);
      DriftLaw(f, weight, n, refills - 1);
      MovesAdd(m.timestamp, weight(m.window), Drift(f, weight, n, refills - 1), n.timestamp,
               FinalBase(f, n, refills - 1));
    } else {
      NoDrift(m.timestamp);
    }
  }

  /** What the last attempt adds comes on top. */
  lemma LastAdds(f: Decoder, weight: Bytes -> int, m: Machine, refills: nat, last: int)
    requires m.Valid() && Accumulates(f, weight)
    requires MovedBy(FinalBase(f, m, refills), last,
                     f(FinalBase(f, m, refills), FinalWindow(f, m, refills)).timestamp)
    ensures MovedBy(m.timestamp, Drift(f, weight, m, refills) + last, Retry(f, m, refills).m.timestamp)
  {
    DriftLaw(f, weight, m, refills);
    LastAttempt(f, m, refills);
    MovesAdd(m.timestamp, Drift(f, weight, m, refills), last, FinalBase(f, m, refills),
             Retry(f, m, refills).m.timestamp);
  }

  // ----- Terminal answers -----

  /** Asked again about a window it has failed on, the call fails the same way. */
  ghost predicate FailsAgain(f: Decoder) {
    forall base, window ::
      f(base, window).answer.Failed? ==> f(f(base, window).timestamp, window) == f(base, window)
  }

  /** After a terminal error every later loop returns the same error at once and changes nothing. */
  lemma {:induction false} TerminalRepeats(f: Decoder, m: Machine, refills: nat, later: nat)
    requires m.Valid() && FailsAgain(f)
    requires Retry(f, m, refills).Genuine() && Retry(f, m, refills).answer.Failed?
    requires OwnAnswers(f)
    ensures Retry(f, Retry(f, m, refills).m, later) == Retry(f, m, refills)
    decreases refills
  {
    if GoesOn(f, m, refills) {
      TerminalRepeats(f, Next(f, m), refills - 1, later);
    }
  }

  // ----- Termination -----

  /** `count` bytes settle the call, whatever timestamp it starts from. */
  ghost predicate SettledBy(f: Decoder, all: Bytes, count: nat) {
    count <= |all| && forall base :: !f(base, all[..count]).Incomplete()
  }

  /** Whether `all` settles the call does not depend on the timestamp it starts from. */
  ghost predicate SettlesAlike(f: Decoder, all: Bytes) {
    forall base, other :: f(base, all).Incomplete() ==> f(other, all).Incomplete()
  }

  /** Every refill offers the source at least half of the buffer, and at least one byte. */
  lemma RefillRoom(m: Machine)
    requires m.Valid() && m.capacity >= 1
    ensures Grown(m) - |m.window| >= Grown(m) - Grown(m) / 2 >= 1
  {
  }

  /** A refill uses up a planned read or, the plan being over, delivers a byte if any is left. */
  lemma RefillProgress(m: Machine)
    requires m.Valid() && m.capacity >= 1 && (m.feed.plan != [] || m.feed.rest != [])
    ensures var n := Refill(m).m;
            if m.feed.plan != [] then |n.feed.plan| < |m.feed.plan| && |n.window| >= |m.window|
            else n.feed.plan == [] && |n.window| > |m.window|
  {
    RefillRoom(m);
  }

  lemma LongWindowSettles(f: Decoder, m: Machine, count: nat)
    requires Stable(f) && SettledBy(f, m.Remaining(), count)
    requires |m.window| >= count
    ensures !f(m.timestamp, m.window).Incomplete()
  {
    var prefix := m.Remaining()[..count];
    assert !f(m.timestamp, prefix).Incomplete();
    assert prefix + m.window[count..] == m.window;
  }

  /** The bytes missing from a window of the `count` needed. */
  function Missing(m: Machine, count: nat): nat {
    if |m.window| < count then count - |m.window| else 0
  }

  /** The loop returns after no more refills than there are planned reads and bytes missing; their sum
      decreases. */
  lemma {:induction false} RetryTerminates(f: Decoder, m: Machine, refills: nat, count: nat)
    requires m.Valid() && m.capacity >= 1 && Stable(f)
    requires SettledBy(f, m.Remaining(), count)
    requires refills >= |m.feed.plan| + Missing(m, count)
    ensures Retry(f, m, refills).Done?
    decreases |m.feed.plan| + Missing(m, count)
  {
    var t := f(m.timestamp, m.window);
    if t.Incomplete() {
      if |m.window| >= count {
        LongWindowSettles(f, m, count);
      }
      RefillConserves(Stamped(m, t.timestamp));
      RefillProgress(Stamped(m, t.timestamp));
      if GoesOn(f, m, refills) {
        RetryTerminates(f, Next(f, m), refills - 1, count);
      }
    }
  }

  /** A source that never breaks forwards no error. */
  lemma {:induction false} NeverBreaksIsGenuine(f: Decoder, m: Machine, refills: nat)
    requires m.Valid() && OwnAnswers(f) && NeverBreaks(m.feed.plan)
    ensures var o := Retry(f, m, refills); NeverBreaks(o.m.feed.plan) && (o.Done? ==> o.Genuine())
    decreases refills
  {
    if GoesOn(f, m, refills) {
      NeverBreaksIsGenuine(f, Next(f, m), refills - 1);
    }
  }

  /** The buffer is not empty and the source forwards no error. Its chunks are arbitrary. */
  predicate Fair(m: Machine) {
    m.capacity >= 1 && NeverBreaks(m.feed.plan)
  }

  /** A fair machine, and refills enough for everything to arrive. */
  predicate Promising(m: Machine, refills: nat) {
    m.Valid() && Fair(m) && refills >= Patience(m.feed)
  }

  lemma RefillStaysFair(m: Machine)
    requires m.Valid() && Fair(m)
    ensures Fair(Refill(m).m) && Patience(Refill(m).m.feed) <= Patience(m.feed)
  {
    RefillRoom(m);
  }

  lemma {:induction false} RetryStaysFair(f: Decoder, m: Machine, refills: nat)
    requires m.Valid() && Fair(m)
    ensures var o := Retry(f, m, refills); Fair(o.m) && Patience(o.m.feed) <= Patience(m.feed)
    decreases refills
  {
    var t := f(m.timestamp, m.window);
    if t.Incomplete() && refills > 0 {
      RefillStaysFair(Stamped(m, t.timestamp));
      RetryStaysFair(f, Next(f, m), refills - 1);
    }
  }

  /** A loop with refills enough that has not returned has received everything. */
  lemma {:induction false} PendingIsDrained(f: Decoder, m: Machine, refills: nat)
    requires Promising(m, refills) && Retry(f, m, refills).Pending?
    ensures Retry(f, m, refills).m.feed.rest == []
    decreases refills
  {
    if GoesOn(f, m, refills) {
      var stamped := Stamped(m, f(m.timestamp, m.window).timestamp);
      RefillStaysFair(stamped);
      if m.feed.plan == [] && m.feed.rest == [] {
        RestShrinks(f, m, refills);
      } else {
        RefillProgress(stamped);
        RefillConserves(stamped);
        PendingIsDrained(f, Next(f, m), refills - 1);
      }
    }
  }

  /** What is still to come only shrinks. */
  lemma RefillShrinks(m: Machine)
    requires m.Valid()
    ensures |Refill(m).m.feed.rest| <= |m.feed.rest|
  {
  }

  lemma {:induction false} RestShrinks(f: Decoder, m: Machine, refills: nat)
    requires m.Valid()
    ensures |Retry(f, m, refills).m.feed.rest| <= |m.feed.rest|
    decreases refills
  {
    var stamped := Stamped(m, f(m.timestamp, m.window).timestamp);
    RefillShrinks(stamped);
    if GoesOn(f, m, refills) {
      RestShrinks(f, Next(f, m), refills - 1);
    }
  }

  /** On a promising machine the loop returns if every timestamp settles the whole rest of the stream, and
      what it leaves is promising again. */
  lemma PromiseKept(f: Decoder, m: Machine, refills: nat)
    requires Promising(m, refills) && Stable(f) && OwnAnswers(f)
    ensures var o := Retry(f, m, refills);
            && Promising(o.m, refills) && (o.Done? ==> o.Genuine())
            && (SettledBy(f, m.Remaining(), |m.Remaining()|) ==> o.Done?)
  {
    NeverBreaksIsGenuine(f, m, refills);
    RetryStaysFair(f, m, refills);
    if SettledBy(f, m.Remaining(), |m.Remaining()|) {
      RetryTerminates(f, m, refills, |m.Remaining()|);
    }
  }

  /** On a promising machine the loop of a repeatable call returns exactly when the rest of the stream
      settles the call. */
  lemma PromiseIff(f: Decoder, m: Machine, refills: nat)
    requires Promising(m, refills) && Stable(f) && Repeatable(f) && OwnAnswers(f)
    requires SettlesAlike(f, m.Remaining())
    ensures Retry(f, m, refills).Done? <==> !f(m.timestamp, m.Remaining()).Incomplete()
  {
    var all := m.Remaining();
    assert all[..|all|] == all;
    PromiseKept(f, m, refills);
    if Retry(f, m, refills).Done? {
      RetryIsOneAttempt(f, m, refills);
    }
  }

  /** Exactly when the loop of a repeatable call returns at all, given a fair source: when the rest of the
      stream settles the call. On a truncated stream it runs for ever. */
  lemma RetryHaltsIff(f: Decoder, m: Machine)
    requires m.Valid() && Fair(m) && Stable(f) && Repeatable(f) && OwnAnswers(f)
    requires SettlesAlike(f, m.Remaining())
    ensures (exists refills: nat :: Retry(f, m, refills).Done?)
            <==> !f(m.timestamp, m.Remaining()).Incomplete()
  {
    forall refills: nat | Retry(f, m, refills).Done?
      ensures !f(m.timestamp, m.Remaining()).Incomplete()
    {
      NeverBreaksIsGenuine(f, m, refills);
      RetryIsOneAttempt(f, m, refills);
    }
    PromiseIff(f, m, Patience(m.feed));
  }

  /** A buffer of size zero never grows or receives a byte. */
  lemma {:induction false} ZeroCapacityStaysEmpty(f: Decoder, m: Machine, refills: nat)
    requires m.Valid() && m.capacity == 0 && f(m.timestamp, []).Incomplete() && KeepsTimestamp(f)
    ensures var o := Retry(f, m, refills); o.m.capacity == 0 && !o.Genuine()
    decreases refills
  {
    if GoesOn(f, m, refills) {
      RefillConserves(Stamped(m, m.timestamp));
      ZeroCapacityStaysEmpty(f, Next(f, m), refills - 1);
    }
  }

  // ----- Growth -----

  function Doubled(size: nat, times: nat): nat
    decreases times
  {
    if times == 0 then size else Doubled(2 * size, times - 1)
  }

  /** The buffer only ever doubles. */
  lemma {:induction false} RetryDoubles(f: Decoder, m: Machine, refills: nat) returns (times: nat)
    requires m.Valid()
    ensures Retry(f, m, refills).m.capacity == Doubled(m.capacity, times)
    decreases refills
  {
    times := 0;
    if f(m.timestamp, m.window).Incomplete() && refills > 0 {
      if GoesOn(f, m, refills) {
        times := RetryDoubles(f, Next(f, m), refills - 1);
      }
      if Grown(m) != m.capacity {
        times := times + 1;
      }
    }
  }

  /** Every prefix on which the call runs out of bytes is shorter than `extent`. */
  ghost predicate OpenBelow(f: Decoder, base: Int64, all: Bytes, extent: nat) {
    forall n | 0 <= n <= |all| :: f(base, all[..n]).Incomplete() ==> n < extent
  }

  /** No failed attempt of the loop moves the timestamp. */
  predicate Steady(f: Decoder, m: Machine, refills: nat)
    requires m.Valid()
    decreases refills
  {
    GoesOn(f, m, refills) ==>
      f(m.timestamp, m.window).timestamp == m.timestamp && Steady(f, Next(f, m), refills - 1)
  }

  /** The buffer grows past its size only while the bytes it must hold fill more than half of it. */
  lemma {:induction false} RetryGrowth(f: Decoder, m: Machine, refills: nat, extent: nat)
    requires m.Valid() && (Repeatable(f) || Steady(f, m, refills))
    requires OpenBelow(f, m.timestamp, m.Remaining(), extent)
    ensures Retry(f, m, refills).m.capacity <= Max(m.capacity, 4 * extent)
    decreases refills
  {
    var t := f(m.timestamp, m.window);
    if t.Incomplete() && refills > 0 {
      assert m.Remaining()[..|m.window|] == m.window;
      RefillConserves(Stamped(m, t.timestamp));
      if GoesOn(f, m, refills) {
        forall n | 0 <= n <= |m.Remaining()|
          ensures f(t.timestamp, m.Remaining()[..n]).Incomplete() ==> n < extent
        {
          assert f(t.timestamp, m.Remaining()[..n]).answer == f(m.timestamp, m.Remaining()[..n]).answer;
        }
        RetryGrowth(f, Next(f, m), refills - 1, extent);
      }
    }
  }

  /** A steady loop ends with its last attempt on the caller's timestamp. */
  lemma {:induction false} SteadyKeepsBase(f: Decoder, m: Machine, refills: nat)
    requires m.Valid() && Steady(f, m, refills)
    ensures FinalBase(f, m, refills) == m.timestamp
    decreases refills
  {
    if GoesOn(f, m, refills) {
      RefillConserves(Stamped(m, m.timestamp));
      SteadyKeepsBase(f, Next(f, m), refills - 1);
    }
  }
}
