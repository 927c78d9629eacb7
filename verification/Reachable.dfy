/** What holds in every state a reader can reach, whichever methods are called and however they end. */
module Reachable {
  import opened Base
  import opened TimedSearch
  import opened RetryLoop
  import opened DecodingCalls
  import opened ReaderRuns

  /** A call on a reader. A bound on the refills below what the call needs stops it inside its loop. */
  datatype Command =
    | ReadNext(refills: nat)
    | ReadToEvent(accepts: Event -> bool, refills: nat)
    | Search(request: Request, refills: nat)

  function Perform(enc: Encoding, c: Command, m: Machine): (o: Outcome)
    requires m.Valid()
    ensures o.m.Valid()
  {
    match c
    case ReadNext(refills) => Retry(Reading(enc), m, refills)
    case ReadToEvent(accepts, refills) => ReadTo(enc, accepts, m, refills)
    case Search(request, refills) => Retry(Searching(request, enc), m, refills)
  }

  /** The reader after a list of calls, each made where the one before it left off. */
  function After(enc: Encoding, commands: seq<Command>, m: Machine): (n: Machine)
    requires m.Valid()
    ensures n.Valid()
  {
    if commands == [] then m else After(enc, commands[1..], Perform(enc, commands[0], m).m)
  }

  // ----- What has been used -----

  /** The bytes used by the reads that reading to an event makes. */
  function UsedByReadTo(enc: Encoding, f: Event -> bool, m: Machine, refills: nat): nat
    requires m.Valid()
    decreases |m.Remaining()|
  {
    var o := Retry(Reading(enc), m, refills);
    if o.Done? && o.answer.Got? && !f(o.answer.event) then
      ReadConsumes(enc, m, refills);
      o.Used() + UsedByReadTo(enc, f, o.m, refills)
    else o.Used()
  }

  /** The bytes that the events returned or passed over by a call take up; a call that fails, or has not
      returned, uses none for its last attempt. */
  function UsedByOne(enc: Encoding, c: Command, m: Machine): nat
    requires m.Valid()
  {
    match c
    case ReadToEvent(accepts, refills) => UsedByReadTo(enc, accepts, m, refills)
    case _ => Perform(enc, c, m).Used()
  }

  function UsedBy(enc: Encoding, commands: seq<Command>, m: Machine): nat
    requires m.Valid()
  {
    if commands == [] then 0
    else UsedByOne(enc, commands[0], m) + UsedBy(enc, commands[1..], Perform(enc, commands[0], m).m)
  }

  // ----- Conservation -----

  /** `now` is `before` once `used` bytes at the front of what was left have been used, and nothing else. */
  predicate Follows(before: Machine, used: nat, now: Machine) {
    used <= |before.Remaining()| && now.Remaining() == before.Remaining()[used..]
  }

  lemma FollowsAdds(before: Machine, first: nat, middle: Machine, second: nat, now: Machine)
    requires Follows(before, first, middle) && Follows(middle, second, now)
    ensures Follows(before, first + second, now)
  {
    assert before.Remaining()[first..][second..] == before.Remaining()[first + second..];
  }

  lemma {:induction false} ReadToFollows(enc: Encoding, f: Event -> bool, m: Machine, refills: nat)
    requires m.Valid()
    ensures Follows(m, UsedByReadTo(enc, f, m, refills), ReadTo(enc, f, m, refills).m)
    decreases |m.Remaining()|
  {
    var o := Retry(Reading(enc), m, refills);
    RetryConserves(Reading(enc), m, refills);
    if o.Done? && o.answer.Got? && !f(o.answer.event) {
      ReadConsumes(enc, m, refills);
      ReadToFollows(enc, f, o.m, refills);
      FollowsAdds(m, o.Used(), o.m, UsedByReadTo(enc, f, o.m, refills), ReadTo(enc, f, o.m, refills).m);
    }
  }

  lemma PerformFollows(enc: Encoding, c: Command, m: Machine)
    requires m.Valid()
    ensures Follows(m, UsedByOne(enc, c, m), Perform(enc, c, m).m)
  {
    match c {
      case ReadNext(refills) => RetryConserves(Reading(enc), m, refills);
      case ReadToEvent(accepts, refills) => ReadToFollows(enc, accepts, m, refills);
      case Search(request, refills) => RetryConserves(Searching(request, enc), m, refills);
    }
  }

  /** Conservation: after any calls, completed, cut short by the source or still inside their loop, window
      and undelivered bytes are what was left before, less exactly the bytes the calls have used. */
  lemma {:induction false} AfterAccounts(enc: Encoding, commands: seq<Command>, m: Machine)
    requires m.Valid()
    ensures Follows(m, UsedBy(enc, commands, m), After(enc, commands, m))
    decreases |commands|
  {
    if commands == [] {
      assert m.Remaining()[0..] == m.Remaining();
    } else {
      var next := Perform(enc, commands[0], m).m;
      PerformFollows(enc, commands[0], m);
      AfterAccounts(enc, commands[1..], next);
      FollowsAdds(m, UsedByOne(enc, commands[0], m), next, UsedBy(enc, commands[1..], next), After(enc, commands, m));
    }
  }

  /** The constructor, whether it succeeds, fails or is still waiting, has used its preamble or nothing. */
  lemma ConstructAccounts(size: nat, feed: Feed, refills: nat)
    ensures var built := Construct(Opening(), size, feed, refills);
            built.Used() <= |feed.rest| && built.m.Remaining() == feed.rest[built.Used()..]
  {
    var d := Deliver(feed, size);
    var m := Machine(0, d.data, size, d.feed);
    DeliverConserves(feed, size);
    if d.status.Broken? {
      assert feed.rest[0..] == feed.rest;
    } else {
      RetryConserves(Opening(), m, refills);
    }
  }

  /** The first `used` bytes of the stream, the window and the undelivered bytes, in this order, are the
      stream. */
  predicate Accounts(stream: Bytes, used: nat, now: Machine) {
    used <= |stream| && stream[..used] + now.window + now.feed.rest == stream
  }

  lemma UsedThenLeft(stream: Bytes, first: nat, second: nat, built: Machine, now: Machine)
    requires first <= |stream| && built.Remaining() == stream[first..] && Follows(built, second, now)
    ensures Accounts(stream, first + second, now)
  {
    assert stream[first..][second..] == stream[first + second..];
    ConcatAssociates(stream[..first + second], now.window, now.feed.rest);
    assert stream[..first + second] + stream[first + second..] == stream;
  }

  lemma CallsAccount(stream: Bytes, first: nat, built: Machine, enc: Encoding, commands: seq<Command>)
    requires built.Valid() && first <= |stream| && built.Remaining() == stream[first..]
    ensures Accounts(stream, first + UsedBy(enc, commands, built), After(enc, commands, built))
  {
    AfterAccounts(enc, commands, built);
    UsedThenLeft(stream, first, UsedBy(enc, commands, built), built, After(enc, commands, built));
  }

  /** The same from the constructor on: the bytes used so far, the window and the undelivered bytes, in this
      order, are the stream. `built` is what the constructor leaves. */
  lemma ReachableAccounts(
    size: nat, feed: Feed, refills: nat, built: Machine, used: nat, enc: Encoding, commands: seq<Command>)
    requires built == Construct(Opening(), size, feed, refills).m
    requires used == Construct(Opening(), size, feed, refills).Used()
    ensures Accounts(feed.rest, used + UsedBy(enc, commands, built), After(enc, commands, built))
  {
    ConstructAccounts(size, feed, refills);
    CallsAccount(feed.rest, used, built, enc, commands);
  }

  // ----- Fairness -----

  lemma {:induction false} ReadToStaysFair(enc: Encoding, f: Event -> bool, m: Machine, refills: nat)
    requires m.Valid() && Fair(m)
    ensures var o := ReadTo(enc, f, m, refills); Fair(o.m) && Patience(o.m.feed) <= Patience(m.feed)
    decreases |m.Remaining()|
  {
    var o := Retry(Reading(enc), m, refills);
    RetryStaysFair(Reading(enc), m, refills);
    if o.Done? && o.answer.Got? && !f(o.answer.event) {
      ReadConsumes(enc, m, refills);
      ReadToStaysFair(enc, f, o.m, refills);
    }
  }

  /** What refills are enough for, they stay enough for, whatever is called. */
  lemma {:induction false} AfterStaysFair(enc: Encoding, commands: seq<Command>, m: Machine)
    requires m.Valid() && Fair(m)
    ensures var n := After(enc, commands, m); Fair(n) && Patience(n.feed) <= Patience(m.feed)
    decreases |commands|
  {
    if commands != [] {
      match commands[0] {
        case ReadNext(refills) => RetryStaysFair(Reading(enc), m, refills);
        case ReadToEvent(accepts, refills) => ReadToStaysFair(enc, accepts, m, refills);
        case Search(request, refills) => RetryStaysFair(Searching(request, enc), m, refills);
      }
      AfterStaysFair(enc, commands[1..], Perform(enc, commands[0], m).m);
    }
  }

  // ----- The buffer -----

  lemma {:induction false} DoubledAdds(size: nat, first: nat, second: nat)
    ensures Doubled(Doubled(size, first), second) == Doubled(size, first + second)
    decreases first
  {
    if first > 0 {
      DoubledAdds(2 * size, first - 1, second);
    }
  }

  lemma {:induction false} ReadToDoubles(enc: Encoding, f: Event -> bool, m: Machine, refills: nat) returns (times: nat)
    requires m.Valid()
    ensures ReadTo(enc, f, m, refills).m.capacity == Doubled(m.capacity, times)
    decreases |m.Remaining()|
  {
    var o := Retry(Reading(enc), m, refills);
    times := RetryDoubles(Reading(enc), m, refills);
    if o.Done? && o.answer.Got? && !f(o.answer.event) {
      ReadConsumes(enc, m, refills);
      var more := ReadToDoubles(enc, f, o.m, refills);
      DoubledAdds(m.capacity, times, more);
      times := times + more;
    }
  }

  lemma PerformDoubles(enc: Encoding, c: Command, m: Machine) returns (times: nat)
    requires m.Valid()
    ensures Perform(enc, c, m).m.capacity == Doubled(m.capacity, times)
  {
    match c {
      case ReadNext(refills) => times := RetryDoubles(Reading(enc), m, refills);
      case ReadToEvent(accepts, refills) => times := ReadToDoubles(enc, accepts, m, refills);
      case Search(request, refills) => times := RetryDoubles(Searching(request, enc), m, refills);
    }
  }

  lemma {:induction false} AfterDoubles(enc: Encoding, commands: seq<Command>, m: Machine) returns (times: nat)
    requires m.Valid()
    ensures After(enc, commands, m).capacity == Doubled(m.capacity, times)
    decreases |commands|
  {
    times := 0;
    if commands != [] {
      times := PerformDoubles(enc, commands[0], m);
      var more := AfterDoubles(enc, commands[1..], Perform(enc, commands[0], m).m);
      DoubledAdds(m.capacity, times, more);
      times := times + more;
    }
  }

  lemma ConstructDoubles(size: nat, feed: Feed, refills: nat) returns (times: nat)
    ensures Construct(Opening(), size, feed, refills).m.capacity == Doubled(size, times)
  {
    var d := Deliver(feed, size);
    times := 0;
    if !d.status.Broken? {
      times := RetryDoubles(Opening(), Machine(0, d.data, size, d.feed), refills);
    }
  }

  /** In every reachable state the window fits the buffer, and the buffer is the initial one doubled some
      number of times. */
  lemma ReachableBuffer(size: nat, feed: Feed, refills: nat, built: Machine, enc: Encoding, commands: seq<Command>)
    returns (times: nat)
    requires built == Construct(Opening(), size, feed, refills).m
    ensures |After(enc, commands, built).window| <= After(enc, commands, built).capacity == Doubled(size, times)
  {
    var first := ConstructDoubles(size, feed, refills);
    var more := AfterDoubles(enc, commands, built);
    DoubledAdds(size, first, more);
    times := first + more;
  }
}
