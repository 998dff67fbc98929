/** Waiting for an answer (src/client/awaited.h). One thread delivers messages to the waiter, one waits,
    any may cancel. The collection's mutex keeps deliveries and cancellations apart; the flag is tested
    before the waiter's own mutex is taken, so the three may interleave between test and body. */
module Waiter {
  import opened Options

  /** partial: the callback also hears of incomplete values. serialised: the collection's mutex is used. */
  datatype Config = Config(partial: bool, callback: bool, serialised: bool)

  datatype Waiting = NotWaiting | Entering | Sleeping | Returned(result: bool)

  /** The value a callback has been given, and whether it was told that this is the last one. */
  datatype Call<V> = Call(value: V, complete: bool)

  /** passed: checks that have seen the flag down and not yet run their body. The last two fields are
      history: a check has completed the waiter, it has been cancelled. */
  datatype State<V> = State(
    complete: bool, value: V, deadline: Option<nat>,
    passed: nat, cancelling: bool, waiting: Waiting, calls: seq<Call<V>>,
    completed: bool, cancelled: bool)

  /** What `update` makes of a message is any new value, and whether it is the last. */
  datatype Step<V> =
    | CheckTest
    | CheckBody(value: V, last: bool, now: nat)
    | CancelTest
    | CancelBody
    | WaitTest
    | WaitLock
    | WaitWake(now: nat)

  function Initial<V>(value: V, deadline: Option<nat>): (s: State<V>)
    ensures Open(s) && s.waiting.NotWaiting? && s.calls == [] && s.value == value && s.deadline == deadline
  {
    State(false, value, deadline, 0, false, NotWaiting, [], false, false)
  }

  predicate Late(deadline: Option<nat>, now: nat) {
    deadline.Some? && now > deadline.value
  }

  predicate Enabled<V>(c: Config, s: State<V>, step: Step<V>) {
    match step
    case CheckTest => c.serialised ==> s.passed == 0 && !s.cancelling
    case CheckBody(_, _, _) => s.passed > 0
    case CancelTest => c.serialised ==> s.passed == 0 && !s.cancelling
    case CancelBody => s.cancelling
    case WaitTest => s.waiting == NotWaiting
    case WaitLock => s.waiting == Entering
    case WaitWake(now) => s.waiting == Sleeping && (s.complete || (s.deadline.Some? && now >= s.deadline.value))
  }

  function Effect<V>(c: Config, s: State<V>, step: Step<V>): State<V>
    requires Enabled(c, s, step)
  {
    match step
    case CheckTest => if s.complete then s else s.(passed := s.passed + 1)
    case CheckBody(value, last, now) =>
      var heard := c.callback && (last || c.partial) && !Late(s.deadline, now);
      s.(complete := last, value := value, passed := s.passed - 1, completed := s.completed || last,
         calls := if heard then s.calls + [Call(value, last)] else s.calls)
    case CancelTest => if s.complete then s else s.(cancelling := true)
    case CancelBody => s.(complete := true, deadline := None, cancelling := false, cancelled := true)
    case WaitTest => s.(waiting := if s.complete then Returned(true) else Entering)
    case WaitLock => if s.complete then s.(waiting := Returned(true)) else s.(waiting := Sleeping)
    case WaitWake(_) => s.(waiting := Returned(s.complete), complete := true)
  }

  /** A step that is not possible does not happen. */
  function Next<V>(c: Config, s: State<V>, step: Step<V>): State<V> {
    if Enabled(c, s, step) then Effect(c, s, step) else s
  }

  function Run<V>(c: Config, s: State<V>, steps: seq<Step<V>>): State<V> {
    if steps == [] then s else Next(c, Run(c, s, steps[..|steps| - 1]), steps[|steps| - 1])
  }

  /** The waiter's fields; then where the threads that use it are, and what has happened so far. */
  class Awaited<V> {
    const config: Config
    var complete: bool
    var value: V
    var deadline: Option<nat>
    var passed: nat
    var cancelling: bool
    var waiting: Waiting
    var calls: seq<Call<V>>
    var completed: bool
    var cancelled: bool

    function Snapshot(): State<V>
      reads this
    {
      State(complete, value, deadline, passed, cancelling, waiting, calls, completed, cancelled)
    }

    constructor (config: Config, value: V, deadline: Option<nat>)
      ensures this.config == config
      ensures Snapshot() == Initial(value, deadline)
    {
      this.config, this.value, this.deadline, complete := config, value, deadline, false;
      passed, cancelling, waiting, calls, completed, cancelled := 0, false, NotWaiting, [], false, false;
    }

    /** The unlocked half of `check`: go on to the body? */
    method TestForCheck() returns (go: bool)
      requires Enabled(config, Snapshot(), CheckTest)
      modifies this
      ensures go == !old(complete)
      ensures Snapshot() == Next(config, old(Snapshot()), CheckTest)
    {
      if complete {
        return false;
      }
      passed := passed + 1;
      go := true;
    }

    /** The locked half; what the message makes of the value is passed in. */
    method BodyOfCheck(updated: V, last: bool, now: nat)
      requires Enabled(config, Snapshot(), CheckBody(updated, last, now))
      modifies this
      ensures Snapshot() == Next(config, old(Snapshot()), CheckBody(updated, last, now))
    {
      value := updated;
      complete := last;
      if config.callback && (complete || config.partial) {
        if deadline.Some? && now > deadline.value {
        } else {
          calls := calls + [Call(value, complete)];
        }
      }
      passed, completed := passed - 1, completed || last;
    }

    method TestForCancel() returns (go: bool)
      requires Enabled(config, Snapshot(), CancelTest)
      modifies this
      ensures go == !old(complete)
      ensures Snapshot() == Next(config, old(Snapshot()), CancelTest)
    {
      if complete {
        return false;
      }
      cancelling, go := true, true;
    }

    method BodyOfCancel()
      requires Enabled(config, Snapshot(), CancelBody)
      modifies this
      ensures Snapshot() == Next(config, old(Snapshot()), CancelBody)
    {
      complete, deadline := true, None;
      cancelling, cancelled := false, true;
    }

    method TestForWait() returns (go: bool)
      requires Enabled(config, Snapshot(), WaitTest)
      modifies this
      ensures go == !old(complete)
      ensures Snapshot() == Next(config, old(Snapshot()), WaitTest)
    {
      go := !complete;
      waiting := if complete then Returned(true) else Entering;
    }

    method LockForWait() returns (asleep: bool)
      requires Enabled(config, Snapshot(), WaitLock)
      modifies this
      ensures asleep == !old(complete)
      ensures Snapshot() == Next(config, old(Snapshot()), WaitLock)
    {
      asleep := !complete;
      waiting := if complete then Returned(true) else Sleeping;
    }

    /** Woken by a notification or by the deadline: the result is what the flag says then. */
    method WakeFromWait(now: nat) returns (r: bool)
      requires Enabled(config, Snapshot(), WaitWake(now))
      modifies this
      ensures r == old(complete)
      ensures complete
      ensures Snapshot() == Next(config, old(Snapshot()), WaitWake(now))
    {
      r := complete;
      waiting := Returned(r);
      complete := true;
    }

    /** Whatever thread comes next makes its step, if it can. */
    method Do(step: Step<V>)
      modifies this
      ensures Snapshot() == Next(config, old(Snapshot()), step)
    {
      if Enabled(config, Snapshot(), step) {
        match step {
          case CheckTest => var go := TestForCheck();
          case CheckBody(updated, last, now) => BodyOfCheck(updated, last, now);
          case CancelTest => var go := TestForCancel();
          case CancelBody => BodyOfCancel();
          case WaitTest => var go := TestForWait();
          case WaitLock => var asleep := LockForWait();
          case WaitWake(now) => var r := WakeFromWait(now);
        }
      }
    }

    /** A new waiter after any interleaving. */
    method Replay(steps: seq<Step<V>>)
      requires config.serialised && Snapshot() == Initial(value, deadline)
      modifies this
      ensures Snapshot() == Run(config, old(Snapshot()), steps)
      ensures EndsOnce(calls)
      ensures (!config.partial ==> |calls| <= 1)
    {
      ghost var first, v, d := Snapshot(), value, deadline;
      for k := 0 to |steps|
        invariant Snapshot() == Run(config, first, steps[..k])
      {
        assert steps[..k + 1][..k] == steps[..k];
        Do(steps[k]);
      }
      assert steps[..|steps|] == steps;
      CallbackAtMostOnce(config, v, d, steps);
    }
  }

  // ---------------------------------------------------------------- every run

  /** Only the last call may have been told that it is the last. */
  ghost predicate EndsOnce<V>(calls: seq<Call<V>>) {
    forall k :: 0 <= k < |calls| - 1 ==> !calls[k].complete
  }

  ghost predicate Safe<V>(c: Config, s: State<V>) {
    && s.passed <= 1
    && (s.cancelling ==> s.passed == 0 && !s.cancelled && !s.completed)
    && (s.completed || s.cancelled ==> s.complete && s.passed == 0)
    && EndsOnce(s.calls)
    && (s.calls != [] && s.calls[|s.calls| - 1].complete ==> s.completed)
    && (!c.partial ==> |s.calls| <= 1 && forall k :: 0 <= k < |s.calls| ==> s.calls[k].complete)
    && (s.complete && s.passed > 0 ==> s.waiting == Returned(false))
    && (s.complete ==> s.completed || s.cancelled || s.waiting == Returned(false))
    && (s.waiting == Returned(true) ==> s.completed || s.cancelled)
  }

  lemma {:induction false} SafeStep<V>(c: Config, s: State<V>, step: Step<V>)
    requires c.serialised && Safe(c, s)
    ensures Safe(c, Next(c, s, step))
  {
  }

  lemma {:induction false} SafeRun<V>(c: Config, value: V, deadline: Option<nat>, steps: seq<Step<V>>)
    requires c.serialised
    ensures Safe(c, Run(c, Initial(value, deadline), steps))
  {
    if steps != [] {
      SafeRun(c, value, deadline, steps[..|steps| - 1]);
      SafeStep(c, Run(c, Initial(value, deadline), steps[..|steps| - 1]), steps[|steps| - 1]);
    }
  }

  /** A callback for complete values only is called at most once; one for partial values hears at most once
      that it has the last, and nothing after that. */
  lemma {:induction false} CallbackAtMostOnce<V>(c: Config, value: V, deadline: Option<nat>, steps: seq<Step<V>>)
    requires c.serialised
    ensures var calls := Run(c, Initial(value, deadline), steps).calls;
            EndsOnce(calls) && (!c.partial ==> |calls| <= 1)
  {
    SafeRun(c, value, deadline, steps);
  }

  lemma {:induction false} FinalStep<V>(c: Config, s: State<V>, step: Step<V>)
    requires c.serialised && Safe(c, s) && (s.completed || s.cancelled)
    ensures var t := Next(c, s, step); t.value == s.value && t.calls == s.calls && t.complete
    ensures Next(c, s, step).completed == s.completed
    ensures (s.cancelled ==> Next(c, s, step).cancelled)
  {
  }

  /** Once a check has completed the waiter, or it has been cancelled, neither value nor calls change. */
  lemma {:induction false} CompletionIsFinal<V>(
    c: Config, value: V, deadline: Option<nat>, steps: seq<Step<V>>, more: seq<Step<V>>)
    requires c.serialised
    requires var s := Run(c, Initial(value, deadline), steps); s.completed || s.cancelled
    ensures var s, t := Run(c, Initial(value, deadline), steps), Run(c, Initial(value, deadline), steps + more);
            (t.value, t.calls, t.complete) == (s.value, s.calls, true) && (t.completed || t.cancelled)
  {
    if more == [] {
      assert steps + more == steps;
      SafeRun(c, value, deadline, steps);
    } else {
      var n := |more| - 1;
      CompletionIsFinal(c, value, deadline, steps, more[..n]);
      assert (steps + more)[..|steps + more| - 1] == steps + more[..n];
      SafeRun(c, value, deadline, steps + more[..n]);
      FinalStep(c, Run(c, Initial(value, deadline), steps + more[..n]), more[n]);
    }
  }

  /** `wait` returns true only if a check has completed the waiter or it has been cancelled. */
  lemma {:induction false} WaitTrueIsComplete<V>(c: Config, value: V, deadline: Option<nat>, steps: seq<Step<V>>)
    requires c.serialised && Run(c, Initial(value, deadline), steps).waiting == Returned(true)
    ensures var s := Run(c, Initial(value, deadline), steps); s.complete && (s.completed || s.cancelled)
  {
    SafeRun(c, value, deadline, steps);
  }

  /** No callback after the deadline. */
  lemma {:induction false} NoLateCalls<V>(c: Config, s: State<V>, step: Step<V>)
    requires Next(c, s, step).calls != s.calls
    ensures step.CheckBody? && !Late(s.deadline, step.now)
    ensures Next(c, s, step).calls == s.calls + [Call(step.value, step.last)]
  {
  }

  /** The flag is taken back in one case only: after a timeout, by a check that had tested the flag before. */
  lemma {:induction false} FlagTakenBack<V>(c: Config, value: V, deadline: Option<nat>, steps: seq<Step<V>>,
      step: Step<V>)
    requires c.serialised
    ensures var s := Run(c, Initial(value, deadline), steps);
            s.complete && !Next(c, s, step).complete <==>
            s.complete && step.CheckBody? && !step.last && s.passed == 1 && s.waiting == Returned(false)
  {
    SafeRun(c, value, deadline, steps);
  }

  /** And it happens: tested, timed out, updated without completing. */
  lemma {:induction false} RacingCheck()
    ensures var c := Config(false, true, true);
            var steps := [CheckTest, WaitTest, WaitLock, WaitWake(10), CheckBody(5, false, 11)];
            var s := Run(c, Initial(0, Some(10)), steps);
            !s.complete && s.waiting == Returned(false) && s.value == 5
  {
    var c, i: State<int> := Config(false, true, true), Initial(0, Some(10));
    var steps: seq<Step<int>> := [CheckTest, WaitTest, WaitLock, WaitWake(10), CheckBody(5, false, 11)];
    RunOne(c, i, steps, 0);
    RunOne(c, i, steps, 1);
    RunOne(c, i, steps, 2);
    RunOne(c, i, steps, 3);
    RunOne(c, i, steps, 4);
    assert steps[..0] == [] && steps[..5] == steps;
  }

  lemma {:induction false} RunOne<V>(c: Config, s: State<V>, steps: seq<Step<V>>, k: nat)
    requires k < |steps|
    ensures Run(c, s, steps[..k + 1]) == Next(c, Run(c, s, steps[..k]), steps[k])
  {
    assert steps[..k + 1][..k] == steps[..k];
  }

  /** Without the collection's mutex two deliveries can both pass the test, and the callback is called twice. */
  lemma {:induction false} UnserialisedCallsTwice()
    ensures var c := Config(false, true, false);
            var steps := [CheckTest, CheckTest, CheckBody(1, true, 0), CheckBody(2, true, 0)];
            Run(c, Initial(0, None), steps).calls == [Call(1, true), Call(2, true)]
  {
    var c, i: State<int> := Config(false, true, false), Initial(0, None);
    var steps: seq<Step<int>> := [CheckTest, CheckTest, CheckBody(1, true, 0), CheckBody(2, true, 0)];
    RunOne(c, i, steps, 0);
    RunOne(c, i, steps, 1);
    RunOne(c, i, steps, 2);
    RunOne(c, i, steps, 3);
    assert steps[..0] == [] && steps[..4] == steps;
    assert [] + [Call(1, true)] + [Call(2, true)] == [Call(1, true), Call(2, true)];
  }

  // ---------------------------------------------------------------- progress

  lemma {:induction false} RunSnoc<V>(c: Config, s: State<V>, steps: seq<Step<V>>, step: Step<V>)
    ensures Run(c, s, steps + [step]) == Next(c, Run(c, s, steps), step)
  {
  }

  lemma {:induction false} RunAppend<V>(c: Config, s: State<V>, xs: seq<Step<V>>, ys: seq<Step<V>>)
    ensures Run(c, s, xs + ys) == Run(c, Run(c, s, xs), ys)
  {
    if ys == [] {
      assert xs + ys == xs;
    } else {
      var n := |ys| - 1;
      assert xs + ys == (xs + ys[..n]) + [ys[n]];
      RunAppend(c, s, xs, ys[..n]);
      RunSnoc(c, s, xs + ys[..n], ys[n]);
    }
  }

  /** Nobody is between the test and the body of a check or of a cancellation, and the flag is down. */
  ghost predicate Open<V>(s: State<V>) {
    !s.complete && s.passed == 0 && !s.cancelling
  }

  /** A check on its way to its body, and nobody else on the way to one. */
  ghost predicate Checking<V>(s: State<V>, t: State<V>) {
    t.passed == 1 && !t.cancelling
    && (t.deadline, t.value, t.calls, t.completed) == (s.deadline, s.value, s.calls, s.completed)
  }

  lemma {:induction false} CheckGoesOn<V>(c: Config, s: State<V>, t: State<V>, xs: seq<Step<V>>)
    requires c.serialised && Checking(s, t) && forall k :: 0 <= k < |xs| ==> !xs[k].CheckBody?
    ensures Checking(s, Run(c, t, xs))
  {
    if xs != [] { CheckGoesOn(c, s, t, xs[..|xs| - 1]); }
  }

  /** Whatever happens between its test and its body, a check leaves what the message has made of the value, and
      the callback hears of it unless it is late, or partial and not wanted. */
  lemma {:induction false} CheckTakesEffect<V>(c: Config, s: State<V>, xs: seq<Step<V>>, v: V, last: bool, now: nat)
    ensures c.serialised && Open(s) && (forall k :: 0 <= k < |xs| ==> !xs[k].CheckBody?) ==>
            var t := Run(c, s, [CheckTest] + xs + [CheckBody(v, last, now)]);
            var heard := c.callback && (last || c.partial) && (s.deadline.Some? ==> now <= s.deadline.value);
            (t.value, t.complete, t.completed, t.calls) ==
            (v, last, s.completed || last, s.calls + if heard then [Call(v, last)] else [])
  {
    if c.serialised && Open(s) && (forall k :: 0 <= k < |xs| ==> !xs[k].CheckBody?) {
      RunSnoc(c, s, [], CheckTest);
      RunAppend(c, s, [CheckTest], xs);
      CheckGoesOn(c, s, Run(c, s, [CheckTest]), xs);
      RunSnoc(c, s, [CheckTest] + xs, CheckBody(v, last, now));
      assert s.calls + [] == s.calls;
    }
  }

  ghost predicate Cancelling<V>(s: State<V>, t: State<V>) {
    t.passed == 0 && t.cancelling && (t.value, t.calls) == (s.value, s.calls)
  }

  lemma {:induction false} CancelGoesOn<V>(c: Config, s: State<V>, t: State<V>, xs: seq<Step<V>>)
    requires c.serialised && Cancelling(s, t) && forall k :: 0 <= k < |xs| ==> !xs[k].CancelBody?
    ensures Cancelling(s, Run(c, t, xs))
  {
    if xs != [] { CancelGoesOn(c, s, t, xs[..|xs| - 1]); }
  }

  /** So does a cancellation: the flag is up, there is no deadline any more, value and calls are as they were. */
  lemma {:induction false} CancelTakesEffect<V>(c: Config, s: State<V>, xs: seq<Step<V>>)
    ensures c.serialised && Open(s) && (forall k :: 0 <= k < |xs| ==> !xs[k].CancelBody?) ==>
            var t := Run(c, s, [CancelTest] + xs + [CancelBody]);
            (t.complete, t.cancelled, t.deadline, t.value, t.calls) == (true, true, None, s.value, s.calls)
  {
    if c.serialised && Open(s) && (forall k :: 0 <= k < |xs| ==> !xs[k].CancelBody?) {
      RunSnoc(c, s, [], CancelTest);
      RunAppend(c, s, [CancelTest], xs);
      CancelGoesOn(c, s, Run(c, s, [CancelTest]), xs);
      RunSnoc(c, s, [CancelTest] + xs, CancelBody);
    }
  }

  /** Steps of other threads than the one that waits. */
  ghost predicate OfOthers<V>(xs: seq<Step<V>>) {
    forall k :: 0 <= k < |xs| ==> !xs[k].WaitTest? && !xs[k].WaitLock? && !xs[k].WaitWake?
  }

  lemma {:induction false} WaitingStays<V>(c: Config, s: State<V>, xs: seq<Step<V>>)
    requires OfOthers(xs)
    ensures Run(c, s, xs).waiting == s.waiting
  {
    if xs != [] { WaitingStays(c, s, xs[..|xs| - 1]); }
  }

  lemma {:induction false} FallsAsleep<V>(c: Config, s: State<V>, xs: seq<Step<V>>)
    requires s.waiting.NotWaiting? && OfOthers(xs)
    ensures Run(c, s, [WaitTest] + xs + [WaitLock]).waiting ==
            if s.complete || Run(c, s, [WaitTest] + xs).complete then Returned(true) else Sleeping
  {
    RunSnoc(c, s, [], WaitTest);
    RunAppend(c, s, [WaitTest], xs);
    WaitingStays(c, Next(c, s, WaitTest), xs);
    RunSnoc(c, s, [WaitTest] + xs, WaitLock);
  }

  lemma {:induction false} IsWoken<V>(c: Config, s: State<V>, ys: seq<Step<V>>, now: nat)
    requires OfOthers(ys)
    ensures var last := Run(c, s, ys);
            Run(c, s, ys + [WaitWake(now)]).waiting ==
            if !s.waiting.Sleeping? then s.waiting
            else if last.complete then Returned(true)
            else if last.deadline.Some? && now >= last.deadline.value then Returned(false)
            else Sleeping
  {
    RunSnoc(c, s, ys, WaitWake(now));
    WaitingStays(c, s, ys);
  }

  /** A call of `wait`: other threads act before it takes the mutex, and while it sleeps. It returns true if the
      flag is up when it looks; otherwise false, if the deadline has come; otherwise it sleeps on. */
  lemma {:induction false} WaitReturns<V>(c: Config, s: State<V>, xs: seq<Step<V>>, ys: seq<Step<V>>, now: nat)
    ensures s.waiting.NotWaiting? && OfOthers(xs) && OfOthers(ys) ==>
            var locked := Run(c, s, [WaitTest] + xs);
            var asleep := Run(c, s, [WaitTest] + xs + [WaitLock]);
            var last := Run(c, asleep, ys);
            Run(c, asleep, ys + [WaitWake(now)]).waiting ==
            if s.complete || locked.complete || last.complete then Returned(true)
            else if last.deadline.Some? && now >= last.deadline.value then Returned(false)
            else Sleeping
  {
    if s.waiting.NotWaiting? && OfOthers(xs) && OfOthers(ys) {
      FallsAsleep(c, s, xs);
      IsWoken(c, Run(c, s, [WaitTest] + xs + [WaitLock]), ys, now);
    }
  }
}
