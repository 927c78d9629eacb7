/** Whole runs of a reader, of either encoding, against the log it started with. */
module LogRuns {
  import opened Base
  import opened WholeStream
  import opened TimedSearch
  import opened RetryLoop
  import opened DecodingCalls
  import opened ReaderRuns
  import opened SearchRuns
  import opened FourByteSearch
  import opened FourByteState
  import opened Reachable

  /** By how much a call moves the timestamps of what it leaves: only four-byte searches do. */
  function ShiftOfOne(enc: Encoding, c: Command, m: Machine): int
    requires m.Valid()
  {
    match c
    case Search(request, refills) => if enc.FourByte? then SearchShift(request, m, refills) else 0
    case _ => 0
  }

  function ShiftOf(enc: Encoding, commands: seq<Command>, m: Machine): int
    requires m.Valid()
  {
    if commands == [] then 0
    else ShiftOfOne(enc, commands[0], m) + ShiftOf(enc, commands[1..], Perform(enc, commands[0], m).m)
  }

  lemma NoShift(enc: Encoding, m: Machine, passed: nat, now: Machine)
    requires passed <= |LogOf(enc, m).events| && now.Remaining() == Skip(m.Remaining(), passed)
    requires LogOf(enc, now) == Log(LogOf(enc, m).events[passed..], LogOf(enc, m).ending)
    ensures LeavesShifted(enc, m, passed, 0, now)
  {
    ShiftedByZero(LogOf(enc, m).events[passed..]);
  }

  lemma ReadToLeaves(enc: Encoding, f: Event -> bool, m: Machine, refills: nat) returns (passed: nat)
    requires m.Valid()
    ensures LeavesShifted(enc, m, passed, 0, ReadTo(enc, f, m, refills).m)
  {
    var o, log := ReadTo(enc, f, m, refills), LogOf(enc, m);
    passed := ReadToFinds(enc, f, m, refills, o);
    if o.Genuine() && passed < |log.events| {
      passed := passed + 1;
    }
    NoShift(enc, m, passed, o.m);
  }

  lemma EightByteSearchLeaves(r: Request, m: Machine, refills: nat) returns (passed: nat)
    requires m.Valid()
    ensures LeavesShifted(EightByte, m, passed, 0, Retry(Searching(r, EightByte), m, refills).m)
  {
    var o, log := Retry(Searching(r, EightByte), m, refills), LogOf(EightByte, m);
    passed := SearchConsumes(r, m, refills);
    if o.Genuine() && o.answer.Matched? {
      passed := passed + 1;
    } else {
      passed := 0;
      assert log.events[0..] == log.events;
    }
    NoShift(EightByte, m, passed, o.m);
  }

  lemma PerformLeaves(enc: Encoding, c: Command, m: Machine) returns (passed: nat)
    requires m.Valid()
    ensures LeavesShifted(enc, m, passed, ShiftOfOne(enc, c, m), Perform(enc, c, m).m)
  {
    match c {
      case ReadNext(refills) =>
        ReadIsReadToEvery(enc, m, refills);
        passed := ReadToLeaves(enc, Every, m, refills);
      case ReadToEvent(accepts, refills) =>
        passed := ReadToLeaves(enc, accepts, m, refills);
      case Search(request, refills) =>
        if enc.FourByte? {
          passed := SearchLeaves(request, m, refills);
        } else {
          passed := EightByteSearchLeaves(request, m, refills);
        }
    }
  }

  lemma LogsAdd(log: Log, first: nat, shift1: int, middle: Log, second: nat, shift2: int, passed: nat, shift: int)
    requires first <= |log.events| && middle == Shifted(Log(log.events[first..], log.ending), shift1)
    requires second <= |middle.events| && passed == first + second && shift == shift1 + shift2
    ensures Shifted(Log(middle.events[second..], middle.ending), shift2)
            == Shifted(Log(log.events[passed..], log.ending), shift)
  {
    ShiftedRest(Log(log.events[first..], log.ending), shift1, second);
    assert log.events[first..][second..] == log.events[passed..];
    ShiftedAdds(Log(log.events[passed..], log.ending), shift1, shift2);
  }

  lemma LeavesAdd(
    enc: Encoding, m: Machine, first: nat, shift1: int, middle: Machine, second: nat, shift2: int, now: Machine,
    passed: nat, shift: int)
    requires LeavesShifted(enc, m, first, shift1, middle) && LeavesShifted(enc, middle, second, shift2, now)
    requires passed == first + second && shift == shift1 + shift2
    ensures LeavesShifted(enc, m, passed, shift, now)
  {
    SkipAdds(m.Remaining(), first, second);
    LogsAdd(LogOf(enc, m), first, shift1, LogOf(enc, middle), second, shift2, passed, shift);
  }

  /** After any calls, completed, cut short by the source or still inside their loop: some events of the log
      have been consumed, in order, and every timestamp left has moved by the shifts of the four-byte
      searches among the calls, and by nothing else. */
  lemma {:induction false} AfterLeaves(enc: Encoding, commands: seq<Command>, m: Machine) returns (passed: nat)
    requires m.Valid()
    ensures LeavesShifted(enc, m, passed, ShiftOf(enc, commands, m), After(enc, commands, m))
    decreases |commands|
  {
    if commands == [] {
      passed := 0;
      assert LogOf(enc, m).events[0..] == LogOf(enc, m).events;
      NoShift(enc, m, 0, m);
    } else {
      var next := Perform(enc, commands[0], m).m;
      var first := PerformLeaves(enc, commands[0], m);
      var second := AfterLeaves(enc, commands[1..], next);
      passed := first + second;
      LeavesAdd(enc, m, first, ShiftOfOne(enc, commands[0], m), next, second, ShiftOf(enc, commands[1..], next),
                After(enc, commands, m), passed, ShiftOf(enc, commands, m));
    }
  }

  /** Exactly when everything left after any calls is stamped as it was before them: when nothing is left, or the
      shifts sum to zero modulo 2^64. In eight-byte streams they always do. */
  lemma AfterStampsIff(enc: Encoding, commands: seq<Command>, m: Machine) returns (passed: nat)
    requires m.Valid()
    ensures var n, log := After(enc, commands, m), LogOf(enc, m);
            && passed <= |log.events| && n.Remaining() == Skip(m.Remaining(), passed)
            && (LogOf(enc, n) == Log(log.events[passed..], log.ending)
                <==> passed == |log.events| || Wrap64(ShiftOf(enc, commands, m)) == 0)
            && (enc.EightByte? ==> ShiftOf(enc, commands, m) == 0)
  {
    passed := AfterLeaves(enc, commands, m);
    var log := LogOf(enc, m);
    ShiftedSameIff(Log(log.events[passed..], log.ending), ShiftOf(enc, commands, m));
    EightByteNeverShifts(enc, commands, m);
  }

  lemma {:induction false} EightByteNeverShifts(enc: Encoding, commands: seq<Command>, m: Machine)
    requires m.Valid()
    ensures enc.EightByte? ==> ShiftOf(enc, commands, m) == 0
    decreases |commands|
  {
    if commands != [] {
      EightByteNeverShifts(enc, commands[1..], Perform(enc, commands[0], m).m);
    }
  }
}
