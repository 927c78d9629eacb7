/**
 When the retry loop returns, for a decoding call whose failed attempts each add the weight of their window to
 the timestamp: once the source has nothing left every attempt looks at the same bytes from a new timestamp.
 */
module Halting {
  import opened Base
  import opened RetryLoop

  /** The timestamp after `k` failed attempts that each add `d`. */
  function Failing(base: Int64, d: int, k: nat): Int64
    decreases k
  {
    if k == 0 then base else Failing(Wrap64(base + d), d, k - 1)
  }

  /** In closed form: `d` is added `k` times, modulo 2^64. */
  lemma {:induction false} FailingAdds(base: Int64, d: int, k: nat)
    ensures Failing(base, d, k) == Wrap64(base + k * d)
    decreases k
  {
    if k == 0 {
      WrapUnique(base, base, 0);
    } else {
      FailingAdds(Wrap64(base + d), d, k - 1);
      WrapTwice(base, d, (k - 1) * d);
      assert d + (k - 1) * d == k * d;
    }
  }

  /** The attempt after `k` failed ones on the same window comes to an answer. */
  predicate SettledAfter(f: Decoder, d: int, base: Int64, window: Bytes, k: nat) {
    !f(Failing(base, d, k), window).Incomplete()
  }

  /** One of the first attempts, at most `refills` of them after a failure, comes to an answer. */
  predicate SettledWithin(f: Decoder, d: int, base: Int64, window: Bytes, refills: nat)
    decreases refills
  {
    || !f(base, window).Incomplete()
    || (refills > 0 && SettledWithin(f, d, Wrap64(base + d), window, refills - 1))
  }

  /** Some attempt comes to an answer. */
  ghost predicate SettledEver(f: Decoder, d: int, base: Int64, window: Bytes) {
    exists k: nat :: SettledAfter(f, d, base, window, k)
  }

  lemma {:induction false} WithinIff(f: Decoder, d: int, base: Int64, window: Bytes, refills: nat)
    ensures SettledWithin(f, d, base, window, refills)
            <==> exists k: nat | k <= refills :: SettledAfter(f, d, base, window, k)
    decreases refills
  {
    assert SettledAfter(f, d, base, window, 0) <==> !f(base, window).Incomplete();
    if refills > 0 {
      var next := Wrap64(base + d);
      WithinIff(f, d, next, window, refills - 1);
      if k: nat :| 0 < k <= refills && SettledAfter(f, d, base, window, k) {
        assert SettledAfter(f, d, next, window, k - 1);
      }
      if k: nat :| k <= refills - 1 && SettledAfter(f, d, next, window, k) {
        assert SettledAfter(f, d, base, window, k + 1);
      }
    }
  }

  predicate Drained(m: Machine) {
    m.Valid() && m.feed.rest == [] && NeverBreaks(m.feed.plan)
  }

  /** On a drained source a failed attempt changes the timestamp and nothing the next one looks at. */
  lemma DrainedNext(f: Decoder, weight: Bytes -> int, m: Machine, refills: nat)
    requires Drained(m) && Accumulates(f, weight) && refills > 0 && f(m.timestamp, m.window).Incomplete()
    ensures GoesOn(f, m, refills) && Drained(Next(f, m)) && Next(f, m).window == m.window
    ensures Next(f, m).timestamp == Wrap64(m.timestamp + weight(m.window))
  {
    assert m.window + [] == m.window;
  }

  /** On a drained source: the loop returns within `refills` refills exactly if one of its attempts, each with
      the window's weight added once more, comes to an answer. */
  lemma {:induction false} DrainedReturnsIff(f: Decoder, weight: Bytes -> int, m: Machine, refills: nat)
    requires Drained(m) && Accumulates(f, weight)
    ensures Retry(f, m, refills).Done? <==> SettledWithin(f, weight(m.window), m.timestamp, m.window, refills)
    decreases refills
  {
    ReturnsStep(f, m, refills);
    if f(m.timestamp, m.window).Incomplete() && refills > 0 {
      DrainedNext(f, weight, m, refills);
      DrainedReturnsIff(f, weight, Next(f, m), refills - 1);
    }
  }

  /** A loop that goes on with `next` once everything has arrived returns exactly if some further attempt comes
      to an answer. */
  lemma ArrivedReturnsIff(f: Decoder, weight: Bytes -> int, m: Machine, p: nat, next: Machine)
    requires m.Valid() && Drained(next) && Accumulates(f, weight)
    requires forall more: nat :: Retry(f, m, p + 1 + more) == Retry(f, next, more)
    ensures (exists refills: nat :: Retry(f, m, refills).Done?)
            <==> SettledEver(f, weight(next.window), next.timestamp, next.window)
  {
    if refills: nat :| Retry(f, m, refills).Done? {
      RetryMonotone(f, m, refills, p + 1 + refills);
      DrainedReturnsIff(f, weight, next, refills);
      WithinIff(f, weight(next.window), next.timestamp, next.window, refills);
    }
    if k: nat :| SettledAfter(f, weight(next.window), next.timestamp, next.window, k) {
      DrainedReturnsIff(f, weight, next, k);
      WithinIff(f, weight(next.window), next.timestamp, next.window, k);
      assert Retry(f, m, p + 1 + k).Done?;
    }
  }

  /** What a loop that has received everything goes on with. */
  lemma GoesOnDrained(f: Decoder, m: Machine, p: nat, n: Machine) returns (next: Machine)
    requires m.Valid() && Drained(n) && Retry(f, m, p) == Pending(n)
    ensures Drained(next) && next.timestamp == n.timestamp && next.window == n.window
    ensures forall more: nat :: Retry(f, m, p + 1 + more) == Retry(f, next, more)
  {
    next := Refill(n).m;
    assert n.window + [] == n.window;
    forall more: nat ensures Retry(f, m, p + 1 + more) == Retry(f, next, more) {
      RetryContinues(f, m, p, n, more, p + 1 + more, Refilling(f, n, more));
    }
  }

  /** Exactly when the loop returns at all, given a fair source: before everything has arrived, or when some
      number of further attempts on all of it, each adding its weight once more, comes to an answer. */
  lemma ReturnsIff(f: Decoder, weight: Bytes -> int, m: Machine)
    requires m.Valid() && Fair(m) && Accumulates(f, weight)
    ensures var arrived := Retry(f, m, Patience(m.feed));
            (exists refills: nat :: Retry(f, m, refills).Done?)
            <==> arrived.Done? || SettledEver(f, weight(arrived.m.window), arrived.m.timestamp, arrived.m.window)
  {
    var p := Patience(m.feed);
    var arrived := Retry(f, m, p);
    if arrived.Pending? {
      PendingIsDrained(f, m, p);
      RetryStaysFair(f, m, p);
      var next := GoesOnDrained(f, m, p, arrived.m);
      ArrivedReturnsIff(f, weight, m, p, next);
    }
  }
}
