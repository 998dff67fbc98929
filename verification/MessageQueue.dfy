/** The queue between the thread that receives messages and the thread that processes them
    (src/client/queue.h), as a machine whose steps are the regions protected by a mutex. */
module MessageQueue {

  /** Where the processing thread is: not running; at the test of its loop; in get; holding an item it has
      got; waiting for the step flag; past the pause. */
  datatype Phase<T> = Out | Loop | Getting | Holding(item: T) | Blocked(item: T) | Passed(item: T)

  /** drawn: everything got from the queue so far, in order. delivered: what the callback has been given. */
  datatype State<T> = State(
    stopped: bool, paused: bool, step: bool, queue: seq<T>, phase: Phase<T>, drawn: seq<T>, delivered: seq<T>)

  datatype Step<T> =
    | Put(item: T)
    | GetNoWait
    | Clear
    | SetPaused(value: bool)
    | Next
    | Start
    | Stop
    | Process
    | TestLoop
    | Get
    | TestPause
    | PassGate
    | Deliver

  function Initial<T>(): State<T> {
    State(true, false, false, [], Out, [], [])
  }

  function Draw<T>(s: State<T>): State<T>
    requires s.queue != []
  {
    s.(queue := s.queue[1..], drawn := s.drawn + [s.queue[0]])
  }

  /** One step; a step of the processing thread that is not its next one does not happen. */
  function After<T>(max: nat, s: State<T>, step: Step<T>): State<T> {
    match step
    case Put(x) => if |s.queue| >= max then s else s.(queue := s.queue + [x])
    case GetNoWait => if s.queue != [] then Draw(s) else s
    case Clear => s.(queue := [])
    case SetPaused(v) => s.(paused := v)
    case Next => s.(paused := true, step := true)
    case Start => if s.stopped then s.(stopped := false, paused := false) else s
    case Stop => s.(queue := [], stopped := true)
    case Process => if s.phase.Out? then s.(stopped := false, phase := Loop) else s
    case TestLoop => if s.phase.Loop? then s.(phase := if s.stopped then Out else Getting) else s
    case Get =>
      if !s.phase.Getting? then s
      else if s.queue != [] then Draw(s).(phase := Holding(s.queue[0]))
      else if s.stopped then s.(phase := Loop)
      else s
    case TestPause => if s.phase.Holding?
      then s.(phase := if s.paused then Blocked(s.phase.item) else Passed(s.phase.item)) else s
    case PassGate => if s.phase.Blocked? && s.step then s.(step := false, phase := Passed(s.phase.item)) else s
    case Deliver => if s.phase.Passed? then s.(phase := Loop, delivered := s.delivered + [s.phase.item]) else s
  }

  function Run<T>(max: nat, s: State<T>, steps: seq<Step<T>>): State<T> {
    if steps == [] then s else After(max, Run(max, s, steps[..|steps| - 1]), steps[|steps| - 1])
  }

  /** The queue's fields; then where the processing thread is, and what has been got and delivered so far. */
  class Queue<T> {
    const maxSize: nat
    var stopped: bool
    var paused: bool
    var step: bool
    var queue: seq<T>
    var phase: Phase<T>
    var drawn: seq<T>
    var delivered: seq<T>

    function Snapshot(): State<T>
      reads this
    {
      State(stopped, paused, step, queue, phase, drawn, delivered)
    }

    constructor (maxSize: nat)
      ensures this.maxSize == maxSize
      ensures Snapshot() == Initial()
    {
      this.maxSize, stopped, paused, step, queue := maxSize, true, false, false, [];
      phase, drawn, delivered := Out, [], [];
    }

    method PutItem(item: T)
      modifies this
      ensures Snapshot() == After(maxSize, old(Snapshot()), Put(item))
    {
      if |queue| >= maxSize {
        return;
      }
      queue := queue + [item];
    }

    method TakeNoWait() returns (found: bool, item: seq<T>)
      modifies this
      ensures Snapshot() == After(maxSize, old(Snapshot()), GetNoWait)
      ensures found == (old(queue) != []) && item == if found then old(queue)[..1] else []
    {
      found, item := queue != [], [];
      if found {
        item := queue[..1];
        drawn := drawn + [queue[0]];
        queue := queue[1..];
      }
    }

    method ClearItems()
      modifies this
      ensures Snapshot() == After(maxSize, old(Snapshot()), Clear)
    {
      queue := [];
    }

    method SetPaused(value: bool)
      modifies this
      ensures Snapshot() == After(maxSize, old(Snapshot()), Step.SetPaused(value))
    {
      paused := value;
    }

    method StepOnce()
      modifies this
      ensures Snapshot() == After(maxSize, old(Snapshot()), Next)
    {
      paused, step := true, true;
    }

    method StartThread()
      modifies this
      ensures Snapshot() == After(maxSize, old(Snapshot()), Start)
    {
      if stopped {
        stopped, paused := false, false;
      }
    }

    /** The locked part of stop. */
    method ForgetItems()
      modifies this
      ensures Snapshot() == After(maxSize, old(Snapshot()), Stop)
    {
      queue, stopped := [], true;
    }

    /** The locked part, then the wake-up of a processing thread that is paused. */
    method StopThread()
      modifies this
      ensures Snapshot() == After(maxSize, After(maxSize, old(Snapshot()), Stop), Next)
    {
      ForgetItems();
      StepOnce();
    }

    // The steps of process, which the processing thread makes one after the other.

    method BeginProcessing()
      requires phase.Out?
      modifies this
      ensures Snapshot() == After(maxSize, old(Snapshot()), Process)
    {
      stopped, phase := false, Loop;
    }

    method TestStopped()
      requires phase.Loop?
      modifies this
      ensures Snapshot() == After(maxSize, old(Snapshot()), TestLoop)
    {
      phase := if stopped then Out else Getting;
    }

    /** An item if there is one; none after a stop; otherwise the thread goes on waiting. */
    method GetItem()
      requires phase.Getting?
      modifies this
      ensures Snapshot() == After(maxSize, old(Snapshot()), Get)
    {
      if queue != [] {
        var item := queue[0];
        drawn, queue, phase := drawn + [item], queue[1..], Holding(item);
      } else if stopped {
        phase := Loop;
      }
    }

    method TestPaused()
      requires phase.Holding?
      modifies this
      ensures Snapshot() == After(maxSize, old(Snapshot()), TestPause)
    {
      phase := if paused then Blocked(phase.item) else Passed(phase.item);
    }

    method WaitForStep()
      requires phase.Blocked?
      modifies this
      ensures Snapshot() == After(maxSize, old(Snapshot()), PassGate)
    {
      if step {
        step, phase := false, Passed(phase.item);
      }
    }

    method DeliverItem()
      requires phase.Passed?
      modifies this
      ensures Snapshot() == After(maxSize, old(Snapshot()), Deliver)
    {
      delivered, phase := delivered + [phase.item], Loop;
    }

    /** One item, from get to the callback, when nothing else happens in between: it is delivered unless
        the queue is paused and no step has been asked for. */
    method ProcessOne()
      requires phase == Getting && queue != []
      modifies this
      ensures Snapshot() == Run(maxSize, old(Snapshot()), [Get, TestPause, PassGate, Deliver])
      ensures delivered == old(delivered) + if old(paused) && !old(step) then [] else [old(queue)[0]]
    {
      GetItem();
      TestPaused();
      if phase.Blocked? {
        WaitForStep();
      }
      if phase.Passed? {
        DeliverItem();
      }
      RunFour(maxSize, old(Snapshot()), Get, TestPause, PassGate, Deliver);
    }

    /** The step of any thread; one that is not the processing thread's next one is not made. */
    method Do(s: Step<T>)
      modifies this
      ensures Snapshot() == After(maxSize, old(Snapshot()), s)
    {
      match s {
        case Put(item) => PutItem(item);
        case GetNoWait => var found, item := TakeNoWait();
        case Clear => ClearItems();
        case SetPaused(value) => SetPaused(value);
        case Next => StepOnce();
        case Start => StartThread();
        case Stop => ForgetItems();
        case Process => if phase.Out? { BeginProcessing(); }
        case TestLoop => if phase.Loop? { TestStopped(); }
        case Get => if phase.Getting? { GetItem(); }
        case TestPause => if phase.Holding? { TestPaused(); }
        case PassGate => if phase.Blocked? { WaitForStep(); }
        case Deliver => if phase.Passed? { DeliverItem(); }
      }
    }

    /** A new queue after any interleaving. */
    method Replay(steps: seq<Step<T>>)
      requires Snapshot() == Initial()
      modifies this
      ensures Snapshot() == Run(maxSize, Initial(), steps)
      ensures drawn + queue == LogOf(maxSize, steps).items
      ensures |queue| <= maxSize
    {
      for k := 0 to |steps|
        invariant Snapshot() == Run(maxSize, Initial(), steps[..k])
      {
        assert steps[..k + 1][..k] == steps[..k];
        Do(steps[k]);
      }
      assert steps[..|steps|] == steps;
      Conservation(maxSize, steps);
      ghost var log := LogOf(maxSize, steps);
      assert log.items[..log.cursor] + log.items[log.cursor..] == log.items;
    }
  }

  lemma {:induction false} RunFour<T>(max: nat, s: State<T>, a: Step<T>, b: Step<T>, c: Step<T>, d: Step<T>)
    ensures Run(max, s, [a, b, c, d]) == After(max, After(max, After(max, After(max, s, a), b), c), d)
  {
    assert [a, b, c, d] == [a, b, c] + [d] && [a, b, c] == [a, b] + [c] && [a, b] == [a] + [b] && [a] == [] + [a];
    RunSnoc(max, s, [a, b, c], d);
    RunSnoc(max, s, [a, b], c);
    RunSnoc(max, s, [a], b);
    RunSnoc(max, s, [], a);
  }

  lemma {:induction false} RunSnoc<T>(max: nat, s: State<T>, steps: seq<Step<T>>, step: Step<T>)
    ensures Run(max, s, steps + [step]) == After(max, Run(max, s, steps), step)
  {
  }

  // ---------------------------------------------------------------- conservation

  /** A log of all items accepted and not cleared, with a cursor after those got. */
  datatype Log<T> = Log(items: seq<T>, cursor: nat)

  function Write<T>(max: nat, s: State<T>, log: Log<T>, step: Step<T>): Log<T> {
    match step
    case Put(x) => if |log.items| - log.cursor >= max then log else log.(items := log.items + [x])
    case GetNoWait => if log.cursor < |log.items| then log.(cursor := log.cursor + 1) else log
    case Get => if s.phase.Getting? && log.cursor < |log.items| then log.(cursor := log.cursor + 1) else log
    case Clear => if log.cursor <= |log.items| then log.(items := log.items[..log.cursor]) else log
    case Stop => if log.cursor <= |log.items| then log.(items := log.items[..log.cursor]) else log
    case _ => log
  }

  function LogOf<T>(max: nat, steps: seq<Step<T>>): Log<T> {
    if steps == [] then Log([], 0)
    else
      var n := |steps| - 1;
      Write(max, Run(max, Initial(), steps[..n]), LogOf(max, steps[..n]), steps[n])
  }

  ghost predicate Kept<T>(max: nat, s: State<T>, log: Log<T>) {
    log.cursor <= |log.items| && s.drawn == log.items[..log.cursor] && s.queue == log.items[log.cursor..]
      && |s.queue| <= max
  }

  lemma {:induction false} KeptStep<T>(max: nat, s: State<T>, log: Log<T>, step: Step<T>)
    requires Kept(max, s, log)
    ensures Kept(max, After(max, s, step), Write(max, s, log, step))
  {
    var more, n := Write(max, s, log, step), log.cursor;
    if more.cursor == n + 1 {
      assert s.queue[0] == log.items[n];
      assert log.items[..n + 1] == log.items[..n] + [log.items[n]] && log.items[n + 1..] == log.items[n..][1..];
    } else if step.Put? && |s.queue| < max {
      assert more.items[..n] == log.items[..n] && more.items[n..] == log.items[n..] + [step.item];
    } else if step.Clear? || step.Stop? {
      assert more.items == more.items[..n] && more.items[n..] == [];
    }
  }

  /** Every run: what has been got, then what is queued, is exactly what has been accepted and not cleared,
      in the order of the puts; and the queue is never longer than its maximum. */
  lemma {:induction false} Conservation<T>(max: nat, steps: seq<Step<T>>)
    ensures Kept(max, Run(max, Initial(), steps), LogOf(max, steps))
  {
    if steps != [] {
      var n := |steps| - 1;
      Conservation(max, steps[..n]);
      KeptStep(max, Run(max, Initial(), steps[..n]), LogOf(max, steps[..n]), steps[n]);
    }
  }

  /** The item on its way to the callback. */
  function Hand<T>(s: State<T>): seq<T> {
    if s.phase.Holding? || s.phase.Blocked? || s.phase.Passed? then [s.phase.item] else []
  }

  /** With the processing thread as the only consumer: delivered, then in hand, then queued is the whole log.
      Nothing is lost, overtaken or delivered twice. */
  lemma {:induction false} DeliveredInOrder<T>(max: nat, steps: seq<Step<T>>)
    requires forall k :: 0 <= k < |steps| ==> !steps[k].GetNoWait?
    ensures var s := Run(max, Initial(), steps);
            s.drawn == s.delivered + Hand(s) && s.delivered + Hand(s) + s.queue == LogOf(max, steps).items
  {
    Conservation(max, steps);
    DrawnIsDelivered(max, steps);
    var log := LogOf(max, steps);
    assert log.items[..log.cursor] + log.items[log.cursor..] == log.items;
  }

  lemma {:induction false} DrawnIsDelivered<T>(max: nat, steps: seq<Step<T>>)
    requires forall k :: 0 <= k < |steps| ==> !steps[k].GetNoWait?
    ensures var s := Run(max, Initial(), steps); s.drawn == s.delivered + Hand(s)
  {
    if steps != [] {
      var n := |steps| - 1;
      DrawnIsDelivered(max, steps[..n]);
      DrawnStep(max, Run(max, Initial(), steps[..n]), steps[n]);
    }
  }

  lemma {:induction false} DrawnStep<T>(max: nat, s: State<T>, step: Step<T>)
    requires s.drawn == s.delivered + Hand(s) && !step.GetNoWait?
    ensures var t := After(max, s, step); t.drawn == t.delivered + Hand(t)
  {
    match step {
      case Get => assert s.phase.Getting? ==> Hand(s) == [];
      case Deliver => assert s.phase.Passed? ==> Hand(s) == [s.phase.item];
      case _ =>
    }
  }

  /** All puts that found room, in order. */
  function Accepted<T>(max: nat, steps: seq<Step<T>>): seq<T> {
    if steps == [] then []
    else
      var n := |steps| - 1;
      Accepted(max, steps[..n]) +
      if steps[n].Put? && |Run(max, Initial(), steps[..n]).queue| < max then [steps[n].item] else []
  }

  /** Without a clear or a stop, the log is all of them. */
  lemma {:induction false} NothingIsLost<T>(max: nat, steps: seq<Step<T>>)
    requires forall k :: 0 <= k < |steps| ==> !steps[k].Clear? && !steps[k].Stop?
    ensures LogOf(max, steps).items == Accepted(max, steps)
  {
    if steps != [] {
      NothingIsLost(max, steps[..|steps| - 1]);
      Conservation(max, steps[..|steps| - 1]);
    }
  }

  // ---------------------------------------------------------------- stepping

  function Nexts<T>(steps: seq<Step<T>>): nat {
    if steps == [] then 0 else Nexts(steps[..|steps| - 1]) + if steps[|steps| - 1].Next? then 1 else 0
  }

  function Flag(b: bool): nat { if b then 1 else 0 }

  /** paused stays set: nobody resumes or restarts. */
  ghost predicate StaysPaused<T>(s: State<T>, steps: seq<Step<T>>) {
    s.paused && forall k :: 0 <= k < |steps| ==> steps[k] != SetPaused(false) && !steps[k].Start?
  }

  /** While paused, each call of next lets at most one item through; besides, one step that had been asked
      for already, and one item that was past the pause already. */
  lemma {:induction false} SteppingBound<T>(max: nat, s: State<T>, steps: seq<Step<T>>)
    requires StaysPaused(s, steps)
    ensures var t := Run(max, s, steps);
            && t.paused
            && |s.delivered| <= |t.delivered|
            && |t.delivered| - |s.delivered| + Flag(t.step) + Flag(t.phase.Passed?)
               <= Nexts(steps) + Flag(s.step) + Flag(s.phase.Passed?)
  {
    if steps != [] { SteppingBound(max, s, steps[..|steps| - 1]); }
  }

  /** Calls of next before the thread gets to the gate count as one. */
  lemma {:induction false} NextsCoalesce<T>(max: nat, s: State<T>, steps: seq<Step<T>>)
    requires forall k :: 0 <= k < |steps| ==> steps[k].Next?
    ensures steps != [] ==> Run(max, s, steps) == After(max, s, Next)
  {
    if |steps| > 1 {
      NextsCoalesce(max, s, steps[..|steps| - 1]);
    } else if steps != [] {
      assert steps[..0] == [] && steps[0] == Next;
    }
  }

  /** An item that waits at the gate waits for next: resuming does not release it. */
  lemma {:induction false} ResumingDoesNotRelease<T>(max: nat, s: State<T>, steps: seq<Step<T>>)
    requires s.phase.Blocked? && !s.step && forall k :: 0 <= k < |steps| ==> !steps[k].Next?
    ensures var t := Run(max, s, steps); t.phase == s.phase && t.delivered == s.delivered && !t.step
  {
    if steps != [] { ResumingDoesNotRelease(max, s, steps[..|steps| - 1]); }
  }

  // ---------------------------------------------------------------- progress

  lemma {:induction false} RunAppend<T>(max: nat, s: State<T>, xs: seq<Step<T>>, ys: seq<Step<T>>)
    ensures Run(max, s, xs + ys) == Run(max, Run(max, s, xs), ys)
  {
    if ys == [] {
      assert xs + ys == xs;
    } else {
      var n := |ys| - 1;
      assert xs + ys == (xs + ys[..n]) + [ys[n]];
      RunAppend(max, s, xs, ys[..n]);
      RunSnoc(max, s, xs + ys[..n], ys[n]);
    }
  }

  lemma {:induction false} RunCons<T>(max: nat, s: State<T>, step: Step<T>, steps: seq<Step<T>>)
    ensures Run(max, s, [step] + steps) == Run(max, After(max, s, step), steps)
  {
    RunAppend(max, s, [step], steps);
    RunSnoc(max, s, [], step);
  }

  lemma {:induction false} GateWaits<T>(max: nat, s: State<T>, steps: seq<Step<T>>)
    requires s.phase.Blocked? && s.step && forall k :: 0 <= k < |steps| ==> !steps[k].PassGate?
    ensures var t := Run(max, s, steps); t.phase == s.phase && t.step && t.delivered == s.delivered
  {
    if steps != [] { GateWaits(max, s, steps[..|steps| - 1]); }
  }

  lemma {:induction false} CallbackWaits<T>(max: nat, s: State<T>, steps: seq<Step<T>>)
    requires s.phase.Passed? && forall k :: 0 <= k < |steps| ==> !steps[k].Deliver?
    ensures var t := Run(max, s, steps); t.phase == s.phase && t.delivered == s.delivered
  {
    if steps != [] { CallbackWaits(max, s, steps[..|steps| - 1]); }
  }

  /** One call of next releases an item that waits at the gate, whatever other threads do meanwhile. */
  lemma {:induction false} NextReleases<T>(max: nat, s: State<T>, xs: seq<Step<T>>, ys: seq<Step<T>>)
    ensures s.phase.Blocked?
            && (forall k :: 0 <= k < |xs| ==> !xs[k].PassGate?) && (forall k :: 0 <= k < |ys| ==> !ys[k].Deliver?) ==>
            Run(max, s, [Next] + xs + [PassGate] + ys + [Deliver]).delivered == s.delivered + [s.phase.item]
  {
    if s.phase.Blocked?
       && (forall k :: 0 <= k < |xs| ==> !xs[k].PassGate?) && (forall k :: 0 <= k < |ys| ==> !ys[k].Deliver?) {
      var a := After(max, s, Next);
      RunSnoc(max, s, [], Next);
      RunAppend(max, s, [Next], xs);
      GateWaits(max, a, xs);
      RunSnoc(max, s, [Next] + xs, PassGate);
      RunAppend(max, s, [Next] + xs + [PassGate], ys);
      CallbackWaits(max, Run(max, s, [Next] + xs + [PassGate]), ys);
      RunSnoc(max, s, [Next] + xs + [PassGate] + ys, Deliver);
    }
  }

  /** It leaves the queue paused, with no step left over. */
  lemma {:induction false} NextLeavesPaused<T>(max: nat, s: State<T>)
    ensures s.phase.Blocked? ==>
            Run(max, s, [Next, PassGate, Deliver]) ==
            s.(paused := true, step := false, phase := Loop, delivered := s.delivered + [s.phase.item])
  {
    var steps: seq<Step<T>> := [Next, PassGate, Deliver];
    assert steps == [Next] + ([PassGate] + ([Deliver] + []));
    RunCons(max, s, Next, [PassGate] + ([Deliver] + []));
    RunCons(max, After(max, s, Next), PassGate, [Deliver] + []);
    RunCons(max, After(max, After(max, s, Next), PassGate), Deliver, []);
  }

  /** What the processing thread does for one item; paused, it needs a call of next for it. */
  function Round<T>(paused: bool): seq<Step<T>> {
    if paused then [TestLoop, Get, TestPause, Next, PassGate, Deliver] else [TestLoop, Get, TestPause, Deliver]
  }

  function Rounds<T>(paused: bool, n: nat): seq<Step<T>> {
    if n == 0 then [] else Rounds(paused, n - 1) + Round(paused)
  }

  lemma {:induction false} OneRound<T>(max: nat, s: State<T>)
    requires s.phase.Loop? && !s.stopped && s.queue != []
    ensures Run(max, s, Round(s.paused)) ==
            Draw(s).(delivered := s.delivered + [s.queue[0]], step := s.step && !s.paused)
  {
    var got := Draw(s).(phase := Holding(s.queue[0]));
    var steps: seq<Step<T>> := [TestLoop, Get, TestPause];
    assert steps == [TestLoop] + ([Get] + ([TestPause] + []));
    RunCons(max, s, TestLoop, [Get] + ([TestPause] + []));
    RunCons(max, After(max, s, TestLoop), Get, [TestPause] + []);
    RunCons(max, got, TestPause, []);
    if s.paused {
      assert Round(s.paused) == steps + [Next, PassGate, Deliver];
      RunAppend(max, s, steps, [Next, PassGate, Deliver]);
      NextLeavesPaused(max, After(max, got, TestPause));
    } else {
      assert Round(s.paused) == steps + [Deliver];
      RunSnoc(max, s, steps, Deliver);
    }
  }

  /** The queue is worked off in order: by the thread alone, or, when it is paused, by one call of next an item. */
  lemma {:induction false} QueueIsWorkedOff<T>(max: nat, s: State<T>, n: nat)
    ensures s.phase.Loop? && !s.stopped && n <= |s.queue| ==>
            var t := Run(max, s, Rounds(s.paused, n));
            && t.delivered == s.delivered + s.queue[..n] && t.queue == s.queue[n..]
            && t.phase.Loop? && !t.stopped && t.paused == s.paused
  {
    if s.phase.Loop? && !s.stopped && 0 < n <= |s.queue| {
      QueueIsWorkedOff(max, s, n - 1);
      var t := Run(max, s, Rounds(s.paused, n - 1));
      RunAppend(max, s, Rounds(s.paused, n - 1), Round(s.paused));
      OneRound(max, t);
      assert s.queue[..n] == s.queue[..n - 1] + [s.queue[n - 1]];
      assert s.queue[n..] == s.queue[n - 1..][1..];
    }
  }

  /** A thread that finds the queue empty waits for an item, or for the end. */
  lemma {:induction false} GetWaits<T>(max: nat, s: State<T>, steps: seq<Step<T>>)
    ensures s.phase.Getting? && s.queue == [] && !s.stopped
            && (forall k :: 0 <= k < |steps| ==> !steps[k].Put? && !steps[k].Stop?) ==>
            var t := Run(max, s, steps); (t.phase, t.queue, t.stopped) == (Getting, [], false)
  {
    if steps != [] { GetWaits(max, s, steps[..|steps| - 1]); }
  }

  /** What stop leaves to the processing thread: to begin, if it has not yet, and to come to the end of a turn. */
  function Ending<T>(): seq<Step<T>> {
    [Stop, Next, Process, Get, TestPause, PassGate, Deliver, TestLoop]
  }

  lemma {:induction false} TurnEnds<T>(max: nat, s: State<T>)
    requires s.step && s.queue == []
    ensures var t := Run(max, s, [TestPause, PassGate, Deliver, TestLoop]);
            && t.stopped == s.stopped && t.queue == [] && t.delivered == s.delivered + Hand(s)
            && t.phase == if s.phase.Out? || s.phase.Getting? then s.phase else if s.stopped then Out else Getting
  {
    RunFour(max, s, TestPause, PassGate, Deliver, TestLoop);
  }

  /** stop ends the processing thread, after the item it has in hand, exactly if the thread has begun: one that
      begins later takes the flag back, and runs on. */
  lemma {:induction false} StopEndsThreadIff<T>(max: nat, s: State<T>)
    ensures var t := Run(max, s, Ending());
            (t.phase.Out?, t.stopped, t.queue, t.delivered) ==
            (!s.phase.Out?, !s.phase.Out?, [], s.delivered + Hand(s))
  {
    var four: seq<Step<T>> := [Stop, Next, Process, Get];
    assert Ending<T>() == four + [TestPause, PassGate, Deliver, TestLoop];
    RunAppend(max, s, four, [TestPause, PassGate, Deliver, TestLoop]);
    RunFour(max, s, Stop, Next, Process, Get);
    TurnEnds(max, Run(max, s, four));
  }

  /** Pauses the queue: a call of next does, too. */
  ghost predicate Pauses<T>(step: Step<T>) {
    step == SetPaused(true) || step == Next
  }

  /** Resumes it: starting a stopped queue does, too. */
  ghost predicate ResumesAt<T>(max: nat, steps: seq<Step<T>>, j: nat) {
    j < |steps| &&
    (steps[j] == SetPaused(false) || (steps[j] == Start && Run(max, Initial(), steps[..j]).stopped))
  }

  /** The queue is paused exactly if something has paused it and nothing has resumed it since. */
  lemma {:induction false} PausedIff<T>(max: nat, steps: seq<Step<T>>)
    ensures Run(max, Initial(), steps).paused <==>
            exists k: nat :: k < |steps| && Pauses(steps[k]) && forall j: nat :: k < j ==> !ResumesAt(max, steps, j)
  {
    if steps != [] {
      var n := |steps| - 1;
      var before := steps[..n];
      PausedIff(max, before);
      assert forall j: nat :: j < n ==> before[..j] == steps[..j];
      assert forall j: nat :: j < n ==> (ResumesAt(max, steps, j) <==> ResumesAt(max, before, j));
      if k: nat :| k < n && Pauses(before[k]) && forall j: nat :: k < j ==> !ResumesAt(max, before, j) {
        assert Pauses(steps[k]);
      }
      if ResumesAt(max, steps, n) {
        assert !Run(max, Initial(), steps).paused;
      } else if Pauses(steps[n]) {
        assert Run(max, Initial(), steps).paused;
      } else {
        assert Run(max, Initial(), steps).paused == Run(max, Initial(), before).paused;
      }
    }
  }

  /** The processing thread begins, which takes the flag back. */
  ghost predicate StartsAt<T>(max: nat, steps: seq<Step<T>>, j: nat) {
    j < |steps| &&
    (steps[j] == Start || (steps[j] == Process && Run(max, Initial(), steps[..j]).phase.Out?))
  }

  /** The queue is stopped exactly if nothing has started it since the last stop. */
  lemma {:induction false} RunningIff<T>(max: nat, steps: seq<Step<T>>)
    ensures !Run(max, Initial(), steps).stopped <==>
            exists k: nat :: StartsAt(max, steps, k) && forall j :: k < j < |steps| ==> !steps[j].Stop?
  {
    if steps != [] {
      var n := |steps| - 1;
      var before := steps[..n];
      RunningIff(max, before);
      assert forall j: nat :: j < n ==> before[..j] == steps[..j];
      assert forall j: nat :: j < n ==> (StartsAt(max, steps, j) <==> StartsAt(max, before, j));
      if StartsAt(max, steps, n) {
        assert !Run(max, Initial(), steps).stopped;
      } else if steps[n].Stop? {
        assert Run(max, Initial(), steps).stopped;
      } else {
        assert Run(max, Initial(), steps).stopped == Run(max, Initial(), before).stopped;
        if k: nat :| StartsAt(max, before, k) && forall j :: k < j < n ==> !before[j].Stop? {
          assert forall j :: k < j < |steps| ==> !steps[j].Stop?;
        }
        if k: nat :| StartsAt(max, steps, k) && forall j :: k < j < |steps| ==> !steps[j].Stop? {
          assert forall j :: k < j < n ==> !before[j].Stop?;
        }
      }
    }
  }
}
