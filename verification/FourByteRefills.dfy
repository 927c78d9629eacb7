/** When a four-byte search returns, and when refills cannot be seen, told by the log alone. */
module FourByteRefills {
  import opened Base
  import opened FrameCodec
  import opened WholeStream
  import opened WildcardQuery
  import opened TimedSearch
  import opened RetryLoop
  import opened DecodingCalls
  import opened Halting
  import opened ReaderRuns
  import opened SearchRuns
  import opened FourByteSearch
  import opened FourByteState

  // ----- When a search returns -----

  /** On a drained source: a four-byte search returns within `refills` refills exactly if one of so many
      scans of the window, each from the window's differences later, comes to an answer. */
  lemma DrainedSearchReturnsIff(r: Request, m: Machine, refills: nat)
    requires Drained(m)
    ensures Retry(Searching(r, FourByte), m, refills).Done?
            <==> SettledWithin(Searching(r, FourByte), DeltaSum(m.window), m.timestamp, m.window, refills)
  {
    FourByteSearchAccumulates(r);
    DrainedReturnsIff(Searching(r, FourByte), DeltaSum, m, refills);
  }

  /** Exactly when a four-byte search of a fair source returns at all: before everything has arrived, or when
      some number of further attempts on all of it, each adding its differences once more, comes to an
      answer. */
  lemma SearchReturnsIff(r: Request, m: Machine)
    requires m.Valid() && Fair(m)
    ensures var f := Searching(r, FourByte);
            var arrived := Retry(f, m, Patience(m.feed));
            (exists refills: nat :: Retry(f, m, refills).Done?)
            <==> arrived.Done? || SettledEver(f, DeltaSum(arrived.m.window), arrived.m.timestamp, arrived.m.window)
  {
    FourByteSearchAccumulates(r);
    ReturnsIff(Searching(r, FourByte), DeltaSum, m);
  }

  /** A truncated stream of one event in the window, and nothing more to come. */
  function Cut(a: Bytes, gap: Int64): (m: Machine)
    requires Printable(a)
    ensures m.Valid() && Fair(m) && m.Remaining() == Print(gap, a)
  {
    Machine(0, Print(gap, a), |Print(gap, a)|, Feed([], []))
  }

  lemma CutScans(a: Bytes, b: Bytes, gap: Int64)
    requires Printable(a) && 0 < gap && 2 * gap <= MAX_INT64 && a != b
    ensures Scan(WantsSoon(b, gap), FourByte, 0, Print(gap, a)) == Try(Failed(IncompleteIr), gap)
    ensures Scan(WantsSoon(b, gap), FourByte, gap, Print(gap, a)) == Try(Failed(QueryNotFound), 2 * gap)
  {
    var r := WantsSoon(b, gap);
    assert Print(gap, a) + [] == Print(gap, a);
    ScanPrinted(r, 0, gap, a, []);
    ScanPrinted(r, gap, gap, a, []);
    SoonPasses(r, a, b, gap);
  }

  lemma SoonPasses(r: Request, a: Bytes, b: Bytes, gap: Int64)
    requires 0 < gap && 2 * gap <= MAX_INT64 && a != b && r == WantsSoon(b, gap)
    ensures !r.Hit(Event(a, gap)) && !r.Late(Event(a, gap)) && r.Late(Event(a, 2 * gap))
  {
  }

  /** The whole-stream search runs out of bytes, but the second attempt on the same bytes takes the event to
      be late and answers QueryNotFound. */
  lemma CutIsAnswered(a: Bytes, b: Bytes, gap: Int64)
    requires Printable(a) && 0 < gap && 2 * gap <= MAX_INT64 && a != b
    ensures Scan(WantsSoon(b, gap), FourByte, 0, Cut(a, gap).Remaining()).Incomplete()
    ensures var o := Retry(Searching(WantsSoon(b, gap), FourByte), Cut(a, gap), 1);
            o.Done? && o.answer == Failed(QueryNotFound)
  {
    var r, m := WantsSoon(b, gap), Cut(a, gap);
    CutScans(a, b, gap);
    assert m.timestamp == 0 && m.window == Print(gap, a) + [];
    assert Print(gap, a) + [] == Print(gap, a);
    assert Next(Searching(r, FourByte), m) == Machine(gap, m.window, Grown(m), Feed([], []));
  }

  // ----- When refills cannot be seen -----

  /** Every event passed before the deciding one, or the end, is stamped `base`. */
  predicate Level(r: Request, log: Log, base: Int64) {
    forall i | 0 <= i < |log.events| && Passed(r, log.events, i + 1) :: log.events[i].timestamp == base
  }

  /** Refills cannot be seen in a loop that has received everything or returned: it has returned, with the
      outcome of one search of the whole stream. A source error, or bytes still missing, leave it open. */
  predicate Unseen(r: Request, m: Machine, refills: nat)
    requires m.Valid()
  {
    var o := Retry(Searching(r, FourByte), m, refills);
    if o.Pending? then o.m.feed.rest != [] else o.Genuine() ==> Transparent(r, m, refills)
  }

  lemma LevelTail(r: Request, event: Event, rest: Log, base: Int64)
    requires Level(r, Log([event] + rest.events, rest.ending), base)
    requires !r.Hit(event) && !r.Late(event)
    ensures event.timestamp == base && Level(r, rest, base)
  {
    var events := [event] + rest.events;
    assert Passed(r, events, 1) && events[0] == event;
    forall i | 0 <= i < |rest.events| && Passed(r, rest.events, i + 1)
      ensures rest.events[i].timestamp == base
    {
      assert forall j | 1 <= j < i + 2 :: events[j] == rest.events[j - 1];
      assert Passed(r, events, i + 2) && events[i + 1] == rest.events[i];
    }
  }

  /** A scan that runs out of bytes on a prefix with a frame in front passes its event. */
  lemma PrefixPasses(r: Request, base: Int64, s: Bytes, n: nat, event: Event, size: nat)
    requires n <= |s| && Scan(r, FourByte, base, s[..n]).Incomplete()
    requires Parse(s[..n]).Frame? && size == Parse(s[..n]).size
    requires event == Event(Parse(s[..n]).message, Advance(base, Parse(s[..n]).field))
    ensures Parse(s) == Parse(s[..n])
    ensures var inner := Scan(r, FourByte, event.timestamp, s[size..][..n - size]);
            && inner.Incomplete() && Scan(r, FourByte, base, s[..n]).timestamp == inner.timestamp
            && !r.Hit(event) && !r.Late(event)
  {
    ParseStable(s[..n], s[n..]);
    assert s[..n] + s[n..] == s;
    PrefixStep(r, FourByte, base, s, n, event, size);
    IncompleteBehind(r, event, size, Scan(r, FourByte, event.timestamp, s[size..][..n - size]));
  }

  /** On a level log every scan that runs out of bytes leaves the timestamp it started with. */
  lemma {:induction false} LevelKeepsBase(r: Request, base: Int64, s: Bytes, n: nat)
    requires n <= |s| && Level(r, Decode(FourByte, base, s), base)
    requires Scan(r, FourByte, base, s[..n]).Incomplete()
    ensures Scan(r, FourByte, base, s[..n]).timestamp == base
    decreases |s|
  {
    var frame := Parse(s[..n]);
    if frame.Frame? {
      var event, tail := Event(frame.message, Advance(base, frame.field)), s[frame.size..];
      PrefixPasses(r, base, s, n, event, frame.size);
      LevelTail(r, event, Decode(FourByte, event.timestamp, tail), base);
      LevelKeepsBase(r, base, tail, n - frame.size);
    }
  }

  /** On a level log the loop is steady, and has returned once everything has arrived. */
  lemma {:induction false} LevelIsSteady(r: Request, m: Machine, refills: nat)
    requires m.Valid() && Level(r, LogOf(FourByte, m), m.timestamp)
    requires !Scan(r, FourByte, m.timestamp, m.Remaining()).Incomplete()
    ensures Steady(Searching(r, FourByte), m, refills)
    ensures var o := Retry(Searching(r, FourByte), m, refills); o.Pending? ==> o.m.feed.rest != []
    decreases refills
  {
    var f := Searching(r, FourByte);
    assert m.Remaining()[..|m.window|] == m.window;
    if f(m.timestamp, m.window).Incomplete() {
      LevelKeepsBase(r, m.timestamp, m.Remaining(), |m.window|);
      assert m.feed.rest == [] ==> m.window + [] == m.window;
      if GoesOn(f, m, refills) {
        RefillConserves(Stamped(m, m.timestamp));
        LevelIsSteady(r, Next(f, m), refills - 1);
      }
    }
  }

  lemma LevelIsUnseen(r: Request, m: Machine, refills: nat)
    requires m.Valid() && Level(r, LogOf(FourByte, m), m.timestamp)
    requires !Scan(r, FourByte, m.timestamp, m.Remaining()).Incomplete()
    ensures Unseen(r, m, refills)
  {
    LevelIsSteady(r, m, refills);
    SteadyKeepsBase(Searching(r, FourByte), m, refills);
    if Retry(Searching(r, FourByte), m, refills).Genuine() {
      BaseIsKeptIff(r, m, refills);
    }
  }

  lemma PassedTail(r: Request, event: Event, rest: seq<Event>, count: nat)
    requires 0 < count <= |rest| + 1 && Passed(r, [event] + rest, count)
    ensures !r.Hit(event) && !r.Late(event) && Passed(r, rest, count - 1)
  {
    var events := [event] + rest;
    assert events[0] == event;
    assert forall j | 0 <= j < count - 1 :: rest[j] == events[j + 1];
  }

  lemma BehindPassed(r: Request, event: Event, size: nat, moved: Int64)
    requires !r.Hit(event) && !r.Late(event)
    ensures Behind(r, event, size, Try(Failed(IncompleteIr), moved)) == Try(Failed(IncompleteIr), moved)
  {
  }

  lemma BaseBehind(event: Event, rest: Log, base: Int64, count: nat)
    requires 0 < count <= |rest.events| + 1
    ensures BaseAfter(Log([event] + rest.events, rest.ending), base, count)
            == BaseAfter(rest, event.timestamp, count - 1)
  {
  }

  /** One passed event in front of a walk. */
  lemma WalksBehind(r: Request, base: Int64, s: Bytes, n: nat, event: Event, size: nat, moved: Int64)
    requires Parse(s).Frame? && size == Parse(s).size <= n <= |s|
    requires event == Event(Parse(s).message, Advance(base, Parse(s).field))
    requires !r.Hit(event) && !r.Late(event)
    requires Scan(r, FourByte, event.timestamp, s[size..][..n - size]) == Try(Failed(IncompleteIr), moved)
    ensures Scan(r, FourByte, base, s[..n]) == Try(Failed(IncompleteIr), moved)
  {
    PrefixStep(r, FourByte, base, s, n, event, size);
    BehindPassed(r, event, size, moved);
  }

  lemma EmptyWalk(r: Request, base: Int64, s: Bytes, n: nat)
    requires n == 0 <= |s|
    ensures Scan(r, FourByte, base, s[..n]) == Try(Failed(IncompleteIr), base)
  {
  }

  /** The scan of the first `count` frames, all passed, runs out of bytes at the last one's timestamp. */
  lemma {:induction false} PassedWalks(r: Request, base: Int64, s: Bytes, count: nat, n: nat, moved: Int64)
    requires count <= |Decode(FourByte, base, s).events| && Passed(r, Decode(FourByte, base, s).events, count)
    requires n == |s| - |Skip(s, count)| && moved == BaseAfter(Decode(FourByte, base, s), base, count)
    ensures Scan(r, FourByte, base, s[..n]) == Try(Failed(IncompleteIr), moved)
    decreases count
  {
    if count > 0 {
      var frame := Parse(s);
      var event, tail := Event(frame.message, Advance(base, frame.field)), s[frame.size..];
      var rest := Decode(FourByte, event.timestamp, tail);
      PassedTail(r, event, rest.events, count);
      BaseBehind(event, rest, base, count);
      PassedWalks(r, event.timestamp, tail, count - 1, n - frame.size, moved);
      WalksBehind(r, base, s, n, event, frame.size, moved);
    } else {
      EmptyWalk(r, base, s, n);
    }
  }

  /** A window that ends behind the first `n` bytes, the rest to arrive with the first refill. */
  function CutAt(base: Int64, s: Bytes, n: nat): (m: Machine)
    requires n <= |s|
    ensures m.Valid() && m.timestamp == base && m.Remaining() == s
  {
    assert s[..n] + s[n..] == s;
    Machine(base, s[..n], 2 * |s|, Feed(s[n..], []))
  }

  /** An attempt on a part of the stream that moves the timestamp makes a refill visible. */
  lemma MovedIsSeen(r: Request, base: Int64, s: Bytes, n: nat, moved: Int64)
    requires n <= |s| && Scan(r, FourByte, base, s[..n]) == Try(Failed(IncompleteIr), moved)
    requires moved != base
    ensures !Unseen(r, CutAt(base, s, n), 1)
  {
    var f, m := Searching(r, FourByte), CutAt(base, s, n);
    assert s[n..][..|s| - n] == s[n..] && s[n..][|s| - n..] == [];
    assert s[..n] + s[n..] == s;
    var next := Next(f, m);
    assert next.timestamp == moved && next.window == s && next.feed.rest == [];
    assert GoesOn(f, m, 1) && FinalBase(f, m, 1) == moved;
    if Retry(f, m, 1).Genuine() && Transparent(r, m, 1) {
      TransparentKeepsBase(r, m, 1);
    } else {
      SearchingIsStable(r, FourByte);
    }
  }

  lemma TransparentKeepsBase(r: Request, m: Machine, refills: nat)
    requires m.Valid() && Retry(Searching(r, FourByte), m, refills).Genuine() && Transparent(r, m, refills)
    ensures FinalBase(Searching(r, FourByte), m, refills) == m.timestamp
  {
    BaseIsKeptIff(r, m, refills);
    TransparentIff(r, m, refills);
  }

  /** The condition on the stream alone: whatever the chunks, the buffer and the source's errors, refills cannot
      be seen, exactly if every event passed before the deciding one is stamped with the timestamp the search
      starts from. */
  lemma UnseenIff(r: Request, base: Int64, s: Bytes)
    requires !Scan(r, FourByte, base, s).Incomplete()
    ensures (forall m: Machine, refills: nat | m.Valid() && m.timestamp == base && m.Remaining() == s ::
               Unseen(r, m, refills))
            <==> Level(r, Decode(FourByte, base, s), base)
  {
    var log := Decode(FourByte, base, s);
    if Level(r, log, base) {
      forall m: Machine, refills: nat | m.Valid() && m.timestamp == base && m.Remaining() == s
        ensures Unseen(r, m, refills)
      {
        LevelIsUnseen(r, m, refills);
      }
    } else {
      var i: nat :| i < |log.events| && Passed(r, log.events, i + 1) && log.events[i].timestamp != base;
      var n := |s| - |Skip(s, i + 1)|;
      PassedWalks(r, base, s, i + 1, n, log.events[i].timestamp);
      MovedIsSeen(r, base, s, n, log.events[i].timestamp);
      assert !Unseen(r, CutAt(base, s, n), 1);
    }
  }
}
