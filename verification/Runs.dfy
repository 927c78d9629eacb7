/** Runs of calls on a reader: what every call keeps, every run keeps, and what a run answers. */
module Runs {
  import opened Base
  import opened RetryLoop

  /** A reader method as a function of the machine. */
  type Caller = Machine -> Outcome

  datatype Run = Run(answers: seq<Answer>, m: Machine)

  /** `count` calls one after the other, up to one that does not return. */
  function Calls(call: Caller, m: Machine, count: nat): Run
    decreases count
  {
    if count == 0 then Run([], m)
    else
      var o := call(m);
      if o.Pending? then Run([], o.m)
      else
        var rest := Calls(call, o.m, count - 1);
        Run([o.answer] + rest.answers, rest.m)
  }

  // ----- Invariants -----

  ghost predicate Keeps(call: Caller, good: Machine -> bool) {
    forall m: Machine {:trigger call(m)} | good(m) :: good(call(m).m)
  }

  /** What every call keeps, every run keeps, one that does not return included. */
  lemma {:induction false} RunKeeps(call: Caller, good: Machine -> bool, m: Machine, count: nat)
    requires Keeps(call, good) && good(m)
    ensures good(Calls(call, m, count).m)
    decreases count
  {
    if count > 0 && call(m).Done? {
      RunKeeps(call, good, call(m).m, count - 1);
    }
  }

  // ----- Answers -----

  predicate FromSource(answer: Answer) {
    answer.Failed? && answer.error.SourceError?
  }

  /** The answers that do not forward an error of the source. */
  function Genuine(answers: seq<Answer>): seq<Answer> {
    if answers == [] then []
    else (if FromSource(answers[0]) then [] else [answers[0]]) + Genuine(answers[1..])
  }

  /** What a run of calls has to answer, positions aside: `answers` in order, then `last` for ever. With
      no `last` no call returns after `answers`. */
  datatype Script = Script(answers: seq<Answer>, last: Option<Answer>)

  /** An answer without its position. */
  function Bare(answer: Answer): Answer {
    if answer.Failed? then answer else answer.(pos := 0)
  }

  /** A call on a script `before` answers `answer` and leaves `after`. */
  predicate NextIn(answer: Answer, before: Script, after: Script) {
    if FromSource(answer) then after == before
    else if before.answers != [] then
      Bare(answer) == before.answers[0] && after == Script(before.answers[1..], before.last)
    else
      before.last == Some(answer) && after == before
  }

  predicate Follows(answers: seq<Answer>, script: Script)
    decreases |answers|
  {
    answers == [] ||
    if script.answers != [] then
      Bare(answers[0]) == script.answers[0] && Follows(answers[1..], Script(script.answers[1..], script.last))
    else
      script.last == Some(answers[0]) && Follows(answers[1..], script)
  }

  lemma FollowsStep(answer: Answer, rest: seq<Answer>, before: Script, after: Script)
    requires NextIn(answer, before, after) && Follows(Genuine(rest), after)
    ensures Follows(Genuine([answer] + rest), before)
  {
    var all := [answer] + rest;
    assert all[1..] == rest;
    if FromSource(answer) {
      assert Genuine(all) == Genuine(rest);
    } else {
      assert Genuine(all) == [answer] + Genuine(rest);
      assert Genuine(all)[1..] == Genuine(rest);
    }
  }

  ghost predicate Plays(call: Caller, good: Machine -> bool, script: Machine -> Script) {
    forall m: Machine {:trigger call(m)} | good(m) && call(m).Done? ::
      NextIn(call(m).answer, script(m), script(call(m).m))
  }

  /** If every call answers with the head of its machine's script, a run follows the script it
      started with, the source's errors left out. */
  lemma {:induction false} RunFollows(
    call: Caller, good: Machine -> bool, script: Machine -> Script, m: Machine, count: nat)
    requires Keeps(call, good) && Plays(call, good, script) && good(m)
    ensures Follows(Genuine(Calls(call, m, count).answers), script(m))
    decreases count
  {
    if count > 0 && call(m).Done? {
      var o := call(m);
      RunFollows(call, good, script, o.m, count - 1);
      FollowsStep(o.answer, Calls(call, o.m, count - 1).answers, script(m), script(o.m));
    }
  }

  predicate HasNext(script: Script) {
    script.answers != [] || script.last.Some?
  }

  /** A call returns exactly if its script has a next answer, and forwards no error of the source. */
  ghost predicate Delivers(call: Caller, good: Machine -> bool, script: Machine -> Script) {
    forall m: Machine {:trigger call(m)} | good(m) ::
      (call(m).Done? <==> HasNext(script(m))) && (call(m).Done? ==> call(m).Genuine())
  }

  /** How many of `count` calls return. */
  function Returning(script: Script, count: nat): nat {
    if script.last.Some? then count else Min(count, |script.answers|)
  }

  lemma OneReturns(answer: Answer, rest: seq<Answer>, before: Script, after: Script, count: nat)
    requires !FromSource(answer) && NextIn(answer, before, after) && Genuine(rest) == rest
    ensures Returning(before, count + 1) == 1 + Returning(after, count)
    ensures Genuine([answer] + rest) == [answer] + rest
  {
    assert ([answer] + rest)[1..] == rest;
  }

  /** Such a run gives exactly as many answers as its script has, all of them the calls' own. */
  lemma {:induction false} RunLength(
    call: Caller, good: Machine -> bool, script: Machine -> Script, m: Machine, count: nat)
    requires Keeps(call, good) && Plays(call, good, script) && Delivers(call, good, script) && good(m)
    ensures var answers := Calls(call, m, count).answers;
            |answers| == Returning(script(m), count) && Genuine(answers) == answers
    decreases count
  {
    if count > 0 && call(m).Done? {
      var o := call(m);
      RunLength(call, good, script, o.m, count - 1);
      OneReturns(o.answer, Calls(call, o.m, count - 1).answers, script(m), script(o.m), count - 1);
    }
  }

  /** Following a script, answer by answer: both directions. */
  lemma {:induction false} FollowsIff(answers: seq<Answer>, script: Script)
    ensures Follows(answers, script) <==>
              && (forall i | 0 <= i < |answers| && i < |script.answers| :: Bare(answers[i]) == script.answers[i])
              && (forall i | |script.answers| <= i < |answers| :: script.last == Some(answers[i]))
    decreases |answers|
  {
    if answers != [] {
      var tail := answers[1..];
      assert forall i | 1 <= i < |answers| :: answers[i] == tail[i - 1];
      if script.answers != [] {
        var rest := Script(script.answers[1..], script.last);
        FollowsIff(tail, rest);
        assert forall i | 1 <= i < |script.answers| :: script.answers[i] == rest.answers[i - 1];
      } else {
        FollowsIff(tail, script);
      }
    }
  }

  /** A script without a last answer is followed by no more answers than it holds. */
  lemma {:induction false} FollowsBounded(answers: seq<Answer>, script: Script)
    requires Follows(answers, script) && script.last == None
    ensures |answers| <= |script.answers|
    decreases |answers|
  {
    if answers != [] && script.answers != [] {
      FollowsBounded(answers[1..], Script(script.answers[1..], script.last));
    }
  }
}
