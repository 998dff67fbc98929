/** What every run of the generated handlers does. */
module MirroringRuns {
  import opened Layout
  import opened AsebaCode
  import opened Int16Cells
  import opened Mirroring

  /** A local event, or a user event received, with the values that the node's own variables have then. */
  datatype Occurrence = Occurrence(event: string, values: Memory)

  /** The handler of an event; nothing happens when there is none. */
  function Dispatch(code: seq<Handler>, event: string): seq<Statement> {
    if code == [] then []
    else
      var h := code[|code| - 1];
      if h.event == event then h.body else Dispatch(code[..|code| - 1], event)
  }

  function Before(m: Memory, o: Occurrence): Memory {
    m + o.values
  }

  function Run(code: seq<Handler>, m: Memory, os: seq<Occurrence>): Memory {
    if os == [] then m
    else
      var n := |os| - 1;
      ExecAll(Dispatch(code, os[n].event), Before(Run(code, m, os[..n]), os[n])).0
  }

  /** The payloads emitted with a user event during a run. */
  function Emitted(code: seq<Handler>, m: Memory, os: seq<Occurrence>, event: string): seq<seq<int>> {
    if os == [] then []
    else
      var n := |os| - 1;
      Emitted(code, m, os[..n], event) +
      Payloads(ExecAll(Dispatch(code, os[n].event), Before(Run(code, m, os[..n]), os[n])).1, event)
  }

  /** What there was to mirror every time a local event happened. */
  function Samples(code: seq<Handler>, m: Memory, os: seq<Occurrence>, name: string, spec: EventSpec): seq<seq<int>> {
    if os == [] then []
    else
      var n := |os| - 1;
      Samples(code, m, os[..n], name, spec) +
      if os[n].event == name then [Concat(Before(Run(code, m, os[..n]), os[n]), Parts(name, spec))] else []
  }

  // ---------------------------------------------------------------- well-made programs

  function Private(name: string): set<string> {
    {EventName(name), WindowName(name), PayloadName(name)}
  }

  lemma {:induction false} PrivateNamesDiffer(name: string)
    ensures EventName(name) != WindowName(name) && EventName(name) != PayloadName(name)
            && WindowName(name) != PayloadName(name)
  {
  }

  lemma {:induction false} EventNamesDiffer(a: string, b: string)
    requires EventName(a) == EventName(b)
    ensures a == b
  {
    assert EventName(a)[6..] == a && EventName(b)[6..] == b;
  }

  /** Handlers write only variables of their own, and emit only their own event. */
  ghost predicate WellMade(code: seq<Handler>) {
    forall k :: 0 <= k < |code| ==>
      WritesAll(code[k].body) <= Private(code[k].event) && EmitsAll(code[k].body) <= {EventName(code[k].event)}
  }

  ghost predicate Keeps(s: Statement, names: set<string>, events: set<string>) {
    Writes(s) <= names && Emits(s) <= events
  }

  lemma {:induction false} KeepsAll(ss: seq<Statement>, names: set<string>, events: set<string>)
    requires forall k :: 0 <= k < |ss| ==> Keeps(ss[k], names, events)
    ensures WritesAll(ss) <= names && EmitsAll(ss) <= events
  {
    if ss != [] {
      assert Keeps(ss[0], names, events);
      KeepsAll(ss[1..], names, events);
    }
  }

  lemma {:induction false} BodyIsWellMade(vs: VariablesMap, name: string, spec: EventSpec)
    ensures WritesAll(Body(vs, name, spec)) <= Private(name)
    ensures EmitsAll(Body(vs, name, spec)) <= {EventName(name)}
  {
    if Windowed(spec) {
      KeepsAll(Publish(name, spec.window, MessageSize(vs, spec)), Private(name), {EventName(name)});
    }
    KeepsAll(Body(vs, name, spec), Private(name), {EventName(name)});
  }

  lemma {:induction false} FunctionIsWellMade(id: string, buffer: string, name: string, sizes: seq<nat>)
    ensures WritesAll(FunctionBody(id, buffer, name, sizes)) == {}
            && EmitsAll(FunctionBody(id, buffer, name, sizes)) == {}
  {
    KeepsAll([Statement.Call(name, buffer, Slices(sizes, 1))], {}, {});
    KeepsAll(FunctionBody(id, buffer, name, sizes), {}, {});
  }

  /** The generated program. */
  function Program(vs: VariablesMap, id: string, buffer: string,
    events: seq<(string, EventSpec)>, functions: seq<(string, seq<nat>)>): seq<Handler>
  {
    WithFunctions(WithEvents(EMPTY_BOOK, vs, events), id, buffer, functions).code
  }

  lemma {:induction false} EventsAreWellMade(vs: VariablesMap, events: seq<(string, EventSpec)>)
    ensures WellMade(WithEvents(EMPTY_BOOK, vs, events).code)
  {
    if events != [] {
      var n := |events| - 1;
      EventsAreWellMade(vs, events[..n]);
      BodyIsWellMade(vs, events[n].0, events[n].1);
    }
  }

  lemma {:induction false} ProgramIsWellMade(vs: VariablesMap, id: string, buffer: string,
    events: seq<(string, EventSpec)>, functions: seq<(string, seq<nat>)>)
    ensures WellMade(Program(vs, id, buffer, events, functions))
  {
    if functions == [] {
      EventsAreWellMade(vs, events);
    } else {
      var n := |functions| - 1;
      ProgramIsWellMade(vs, id, buffer, events, functions[..n]);
      FunctionIsWellMade(id, buffer, functions[n].0, functions[n].1);
    }
  }

  lemma {:induction false} DispatchEvents(vs: VariablesMap, events: seq<(string, EventSpec)>, k: nat)
    requires k < |events| && events[k].1.window > 0 && Known(vs, events[k].1)
    requires forall i, j :: 0 <= i < j < |events| ==> events[i].0 != events[j].0
    ensures Dispatch(WithEvents(EMPTY_BOOK, vs, events).code, events[k].0) == Body(vs, events[k].0, events[k].1)
  {
    var n := |events| - 1;
    var before := WithEvents(EMPTY_BOOK, vs, events[..n]).code;
    assert (before + [Handler(events[n].0, Body(vs, events[n].0, events[n].1))])[..|before|] == before;
    if k < n { DispatchEvents(vs, events[..n], k); }
  }

  /** The handler of a mirrored event is the one generated for it. */
  lemma {:induction false} DispatchProgram(vs: VariablesMap, id: string, buffer: string,
    events: seq<(string, EventSpec)>, functions: seq<(string, seq<nat>)>, k: nat)
    requires k < |events| && events[k].1.window > 0 && Known(vs, events[k].1)
    requires forall i, j :: 0 <= i < j < |events| ==> events[i].0 != events[j].0
    requires forall j :: 0 <= j < |functions| ==> FunctionName(functions[j].0) != events[k].0
    ensures Dispatch(Program(vs, id, buffer, events, functions), events[k].0) == Body(vs, events[k].0, events[k].1)
  {
    if functions == [] {
      DispatchEvents(vs, events, k);
    } else {
      var n := |functions| - 1;
      var before := Program(vs, id, buffer, events, functions[..n]);
      DispatchProgram(vs, id, buffer, events, functions[..n], k);
      assert Program(vs, id, buffer, events, functions)[..|before|] == before;
    }
  }

  /** The handler found for a function is the one generated for it: functions come after the events. */
  lemma {:induction false} DispatchFunction(vs: VariablesMap, id: string, buffer: string,
    events: seq<(string, EventSpec)>, functions: seq<(string, seq<nat>)>, k: nat)
    requires k < |functions|
    requires forall i, j :: 0 <= i < j < |functions| ==> functions[i].0 != functions[j].0
    ensures Dispatch(Program(vs, id, buffer, events, functions), FunctionName(functions[k].0))
         == FunctionBody(id, buffer, functions[k].0, functions[k].1)
  {
    var n := |functions| - 1;
    var before := Program(vs, id, buffer, events, functions[..n]);
    assert Program(vs, id, buffer, events, functions)[..|before|] == before;
    if k < n {
      DispatchFunction(vs, id, buffer, events, functions[..n], k);
      assert FunctionName(functions[n].0)[5..] == functions[n].0 && FunctionName(functions[k].0)[5..] == functions[k].0;
    }
  }

  // ---------------------------------------------------------------- other events do not interfere

  /** No other handler uses a private variable of this event: the compiler refuses to define one twice. */
  ghost predicate Separate(code: seq<Handler>, name: string) {
    forall k :: 0 <= k < |code| && code[k].event != name ==> Private(code[k].event) !! Private(name)
  }

  lemma {:induction false} DispatchFrom(code: seq<Handler>, event: string)
    ensures Dispatch(code, event) == [] ||
            exists k :: 0 <= k < |code| && code[k].event == event && code[k].body == Dispatch(code, event)
  {
    if code != [] { DispatchFrom(code[..|code| - 1], event); }
  }

  /** What the node does in between does not concern the private variables. */
  ghost predicate Undisturbed(o: Occurrence, name: string) {
    o.values.Keys !! Private(name)
  }

  lemma {:induction false} OtherEvent(code: seq<Handler>, m: Memory, o: Occurrence, name: string, private_: string)
    requires WellMade(code) && Separate(code, name) && o.event != name && private_ in Private(name)
             && Undisturbed(o, name)
    ensures var (m', effects) := ExecAll(Dispatch(code, o.event), Before(m, o));
            Cells(m', private_) == Cells(m, private_) && Payloads(effects, EventName(name)) == []
  {
    DispatchFrom(code, o.event);
    var body := Dispatch(code, o.event);
    if body != [] {
      var k :| 0 <= k < |code| && code[k].event == o.event && code[k].body == body;
      if EventName(o.event) == EventName(name) { EventNamesDiffer(o.event, name); }
    }
    ExecAllFrame(body, Before(m, o), private_, EventName(name));
  }

  // ---------------------------------------------------------------- windows

  /** Sum of one cell over some samples. */
  function SumCell(samples: seq<seq<int>>, c: nat): int {
    if samples == [] then 0
    else
      var s := samples[|samples| - 1];
      SumCell(samples[..|samples| - 1], c) + if c < |s| then s[c] else 0
  }

  /** The sums as int16 cells can hold them. */
  function Sums(samples: seq<seq<int>>, size: nat): (r: seq<int>)
    ensures |r| == size && forall c :: 0 <= c < size ==> r[c] == Wrap(SumCell(samples, c))
  {
    seq(size, c requires 0 <= c < size => Wrap(SumCell(samples, c)))
  }

  /** The truncated averages of one window. */
  function Average(samples: seq<seq<int>>, size: nat): (r: seq<int>)
    requires samples != []
    ensures |r| == size && forall c :: 0 <= c < size ==> r[c] == Quotient(Wrap(SumCell(samples, c)), |samples|)
  {
    seq(size, c requires 0 <= c < size => Quotient(Wrap(SumCell(samples, c)), |samples|))
  }

  /** The averages of all full windows. */
  function Averages(samples: seq<seq<int>>, window: nat, size: nat): seq<seq<int>>
    requires window > 0
  {
    if |samples| < window then [] else [Average(samples[..window], size)] + Averages(samples[window..], window, size)
  }

  /** The samples of the window that is not full yet. */
  function Rest(samples: seq<seq<int>>, window: nat): (r: seq<seq<int>>)
    requires window > 0
    ensures |r| < window
  {
    if |samples| < window then samples else Rest(samples[window..], window)
  }

  /** One more sample fills the window or does not. */
  lemma {:induction false} OneMore(samples: seq<seq<int>>, s: seq<int>, window: nat, size: nat)
    requires window > 0
    ensures var rest := Rest(samples, window) + [s];
            && Rest(samples + [s], window) == (if |rest| == window then [] else rest)
            && Averages(samples + [s], window, size) ==
               Averages(samples, window, size) + if |rest| == window then [Average(rest, size)] else []
  {
    var more := samples + [s];
    if |samples| < window {
      if |more| == window {
        assert more[..window] == more && more[window..] == [];
      }
    } else {
      assert more[..window] == samples[..window] && more[window..] == samples[window..] + [s];
      OneMore(samples[window..], s, window, size);
      assert Averages(more, window, size) == [Average(more[..window], size)] + Averages(more[window..], window, size);
    }
  }

  ghost predicate IsAverageOf(payload: seq<int>, samples: seq<seq<int>>, from: int, window: nat, size: nat) {
    window > 0 && 0 <= from && from + window <= |samples| && payload == Average(samples[from..from + window], size)
  }

  /** After k windows and r samples more: k averages, each of its own window, and r samples left. */
  lemma {:induction false} WindowByWindow(samples: seq<seq<int>>, window: nat, size: nat, k: nat, r: nat)
    requires window > 0 && r < window && |samples| == k * window + r
    ensures |Averages(samples, window, size)| == k
    ensures Rest(samples, window) == samples[k * window..]
    ensures forall j :: 0 <= j < k ==>
            IsAverageOf(Averages(samples, window, size)[j], samples, j * window, window, size)
    decreases k
  {
    if k == 0 {
      assert samples[0..] == samples;
    } else {
      assert k * window == (k - 1) * window + window;
      var tail := samples[window..];
      WindowByWindow(tail, window, size, k - 1, r);
      assert tail[(k - 1) * window..] == samples[k * window..];
      forall j | 0 <= j < k
        ensures IsAverageOf(Averages(samples, window, size)[j], samples, j * window, window, size)
      {
        if j == 0 {
          assert samples[0 * window..0 * window + window] == samples[..window];
        } else {
          assert j * window == (j - 1) * window + window;
          assert Averages(samples, window, size)[j] == Averages(tail, window, size)[j - 1];
          assert tail[(j - 1) * window..(j - 1) * window + window] == samples[j * window..j * window + window];
        }
      }
    }
  }

  /** The private variables of a windowed event, part of a window having been seen. */
  ghost predicate Accumulates(m: Memory, name: string, size: nat, rest: seq<seq<int>>) {
    (PayloadName(name) in m, Cells(m, WindowName(name)), Cells(m, PayloadName(name))) ==
    (true, [|rest|], Sums(rest, size))
  }

  lemma {:induction false} SumsStep(rest: seq<seq<int>>, s: seq<int>, size: nat)
    ensures AddCells(Sums(rest, size), s) == Sums(rest + [s], size)
  {
  }

  /** The end of a full window. */
  lemma {:induction false} PublishStep(m: Memory, name: string, size: nat, rest: seq<seq<int>>)
    requires Accumulates(m, name, size, rest) && rest != []
    ensures var (m', effects) := ExecAll(Publish(name, |rest|, size), m);
            && Accumulates(m', name, size, [])
            && (effects, Cells(m', EventName(name))) ==
               ([Emission(EventName(name), Average(rest, size))], Cells(m, EventName(name)))
  {
    PrivateNamesDiffer(name);
    var average, payload, window := Average(rest, size), PayloadName(name), WindowName(name);
    var m1 := m[payload := average];
    var m2 := m1[window := [0]];
    DivideStep(m, name, size, rest);
    ClearStep(m1, window, |rest|);
    ConcatOne(m2, payload);
    FillStep(m2, payload, size);
    ExecFour(DivideCells(payload, size, |rest|), Zero(window), Emit(EventName(name), [payload]), Fill(payload, 0),
             m, m1, m2, m2, m2[payload := Sums([], size)], Emission(EventName(name), average));
  }

  lemma {:induction false} DivideStep(m: Memory, name: string, size: nat, rest: seq<seq<int>>)
    requires Accumulates(m, name, size, rest) && rest != []
    ensures Exec(DivideCells(PayloadName(name), size, |rest|), m) == (m[PayloadName(name) := Average(rest, size)], [])
  {
    assert DivideFrom(Sums(rest, size), 0, size, |rest|) == Average(rest, size);
  }

  lemma {:induction false} ClearStep(m: Memory, name: string, x: int)
    requires Cells(m, name) == [x]
    ensures Exec(Zero(name), m) == (m[name := [0]], [])
  {
    assert [x][0 := 0] == [0];
  }

  lemma {:induction false} FillStep(m: Memory, name: string, size: nat)
    requires name in m && |m[name]| == size
    ensures Exec(Fill(name, 0), m) == (m[name := Sums([], size)], [])
  {
    assert Constant(size, 0) == Sums([], size);
  }

  /** Four statements, of which the third has an effect. */
  lemma {:induction false} ExecFour(a: Statement, b: Statement, c: Statement, d: Statement,
    m: Memory, m1: Memory, m2: Memory, m3: Memory, m4: Memory, effect: Effect)
    requires Exec(a, m) == (m1, []) && Exec(b, m1) == (m2, []) && Exec(c, m2) == (m3, [effect])
             && Exec(d, m3) == (m4, [])
    ensures ExecAll([a, b, c, d], m) == (m4, [effect])
  {
    ExecOne(d, m3);
    assert [c, d] == [c] + [d] && [effect] + [] == [effect];
    ExecTwo(c, [d], m2);
    assert [b, c, d] == [b] + [c, d] && [] + [effect] == [effect];
    ExecTwo(b, [c, d], m1);
    assert [a, b, c, d] == [a] + [b, c, d];
    ExecTwo(a, [b, c, d], m);
  }

  /** The own counter counts, as an int16; nothing else changes. */
  lemma {:induction false} CountStep(m: Memory, name: string, spec: EventSpec)
    ensures var (m', effects) := ExecAll(Count(name, spec), m);
            && effects == []
            && (forall n :: n != EventName(name) ==> Cells(m', n) == Cells(m, n))
            && m'.Keys == m.Keys
            && (forall x :: OwnCounter(spec) && Cells(m, EventName(name)) == [x] ==>
               Cells(m', EventName(name)) == [Wrap(x + 1)])
            && (!OwnCounter(spec) ==> m' == m)
  {
  }

  /** One sample is added, and the window moves on. */
  lemma {:induction false} AddStep(m: Memory, name: string, spec: EventSpec, size: nat, rest: seq<seq<int>>)
    requires Accumulates(m, name, size, rest)
    ensures var sample := Concat(m, Parts(name, spec));
            var m1 := m[PayloadName(name) := Sums(rest + [sample], size)];
            ExecAll([Add(PayloadName(name), Parts(name, spec))] + Count(name, spec), m) ==
              (ExecAll(Count(name, spec), m1).0, [])
  {
    var add, sample := Add(PayloadName(name), Parts(name, spec)), Concat(m, Parts(name, spec));
    var m1 := m[PayloadName(name) := Sums(rest + [sample], size)];
    SumsStep(rest, sample, size);
    assert Exec(add, m) == (m1, []);
    CountStep(m1, name, spec);
    var (m2, after) := ExecAll(Count(name, spec), m1);
    assert after == [] && [] + after == after;
    ExecTwo(add, Count(name, spec), m);
  }

  lemma {:induction false} TurnStep(m: Memory, name: string, spec: EventSpec, size: nat, more: seq<seq<int>>)
    requires Windowed(spec) && 0 < |more| <= 32768
    requires Cells(m, WindowName(name)) == [|more| - 1] && Cells(m, PayloadName(name)) == Sums(more, size)
             && PayloadName(name) in m
    ensures var (m', effects) := ExecAll(Turn(name, spec, size), m);
            && Cells(m', EventName(name)) == Cells(m, EventName(name))
            && (|more| <= spec.window && |more| <= 32767 ==>
                  var full := |more| == spec.window;
                  && Accumulates(m', name, size, if full then [] else more)
                  && effects == if full then [Emission(EventName(name), Average(more, size))] else [])
  {
    PrivateNamesDiffer(name);
    var increment, when := Turn(name, spec, size)[0], Turn(name, spec, size)[1];
    var m1 := m[WindowName(name) := [Wrap(|more|)]];
    assert Exec(increment, m) == (m1, []) by { assert SetFirst([|more| - 1], Wrap(|more|)) == [Wrap(|more|)]; }
    assert Turn(name, spec, size) == [increment] + [when];
    ExecTwo(increment, [when], m);
    ExecOne(when, m1);
    if |more| <= 32767 {
      assert Accumulates(m1, name, size, more);
      if |more| == spec.window { PublishStep(m1, name, size, more); }
    }
  }

  lemma {:induction false} WindowStep(m: Memory, name: string, spec: EventSpec, size: nat, rest: seq<seq<int>>)
    requires Windowed(spec) && |rest| < spec.window <= 32767 && Accumulates(m, name, size, rest)
    ensures var (m', effects) := ExecAll(WindowBody(name, spec, size), m);
            var more := rest + [Concat(m, Parts(name, spec))];
            && Accumulates(m', name, size, if |more| == spec.window then [] else more)
            && effects == if |more| == spec.window then [Emission(EventName(name), Average(more, size))] else []
  {
    PrivateNamesDiffer(name);
    var more := rest + [Concat(m, Parts(name, spec))];
    var m1 := m[PayloadName(name) := Sums(more, size)];
    AddStep(m, name, spec, size, rest);
    CountStep(m1, name, spec);
    var m2 := ExecAll(Count(name, spec), m1).0;
    TurnStep(m2, name, spec, size, more);
    ExecAppend([Add(PayloadName(name), Parts(name, spec))] + Count(name, spec), Turn(name, spec, size), m);
  }

  /** Any run of any events: one emission for every full window, with the averages of that window; the
      samples since then are accumulated. */
  lemma {:induction false} WindowedRun(code: seq<Handler>, m: Memory, os: seq<Occurrence>, name: string,
      spec: EventSpec, size: nat)
    requires WellMade(code) && Separate(code, name) && forall k :: 0 <= k < |os| ==> Undisturbed(os[k], name)
    requires Windowed(spec) && spec.window <= 32767 && Dispatch(code, name) == WindowBody(name, spec, size)
    requires Accumulates(m, name, size, [])
    ensures var samples := Samples(code, m, os, name, spec);
            && Accumulates(Run(code, m, os), name, size, Rest(samples, spec.window))
            && Emitted(code, m, os, EventName(name)) == Averages(samples, spec.window, size)
  {
    if os != [] {
      var n := |os| - 1;
      var o, m0, samples := os[n], Run(code, m, os[..n]), Samples(code, m, os[..n], name, spec);
      WindowedRun(code, m, os[..n], name, spec, size);
      if o.event == name {
        WindowedHere(code, m0, o, name, spec, size, Rest(samples, spec.window));
        OneMore(samples, Concat(Before(m0, o), Parts(name, spec)), spec.window, size);
      } else {
        WindowedElsewhere(code, m0, o, name, size, Rest(samples, spec.window));
        assert samples + [] == samples;
        assert Averages(samples, spec.window, size) + [] == Averages(samples, spec.window, size);
      }
    }
  }

  lemma {:induction false} WindowedHere(
    code: seq<Handler>, m: Memory, o: Occurrence, name: string, spec: EventSpec, size: nat, rest: seq<seq<int>>)
    requires o.event == name && Undisturbed(o, name) && Dispatch(code, name) == WindowBody(name, spec, size)
    requires Windowed(spec) && |rest| < spec.window <= 32767 && Accumulates(m, name, size, rest)
    ensures var (m', effects) := ExecAll(Dispatch(code, o.event), Before(m, o));
            var more := rest + [Concat(Before(m, o), Parts(name, spec))];
            && Accumulates(m', name, size, if |more| == spec.window then [] else more)
            && Payloads(effects, EventName(name)) == if |more| == spec.window then [Average(more, size)] else []
  {
    var now := Before(m, o);
    assert Accumulates(now, name, size, rest);
    WindowStep(now, name, spec, size, rest);
  }

  lemma {:induction false} WindowedElsewhere(
    code: seq<Handler>, m: Memory, o: Occurrence, name: string, size: nat, rest: seq<seq<int>>)
    requires WellMade(code) && Separate(code, name) && o.event != name && Undisturbed(o, name)
    requires Accumulates(m, name, size, rest)
    ensures var (m', effects) := ExecAll(Dispatch(code, o.event), Before(m, o));
            Accumulates(m', name, size, rest) && Payloads(effects, EventName(name)) == []
  {
    OtherEvent(code, m, o, name, WindowName(name));
    OtherEvent(code, m, o, name, PayloadName(name));
    ShapeStays(code, m, o, PayloadName(name));
  }

  lemma {:induction false} ShapeStays(code: seq<Handler>, m: Memory, o: Occurrence, name: string)
    requires name in m
    ensures name in ExecAll(Dispatch(code, o.event), Before(m, o)).0
  {
    ExecAllFrame(Dispatch(code, o.event), Before(m, o), name, "");
  }

  // ---------------------------------------------------------------- the generated program

  /** The script defines the counters and the window buffers, and sets all of them to zero. */
  ghost predicate Initialised(b: Book, m: Memory) {
    && (forall c :: c in b.counters ==> Cells(m, c) == [0])
    && (forall w :: w in b.windows ==> w.name in m && m[w.name] == Constant(w.size, 0))
  }

  /** The memory in which the script starts. */
  ghost predicate Defined(definitions: seq<Variable>, m: Memory) {
    forall v :: v in definitions ==> v.name in m && |m[v.name]| == v.size
  }

  predicate AllZero(xs: seq<int>) {
    forall c :: 0 <= c < |xs| ==> xs[c] == 0
  }

  predicate Clears(s: Statement) {
    s.Zero? || (s.Fill? && s.value == 0)
  }

  /** The statement sets all cells of a variable of this size to zero. */
  predicate Empties(s: Statement, name: string, size: nat) {
    Clears(s) && s.name == name && (s.Fill? || size == 1)
  }

  /** Statements that set variables to zero: what is zero stays zero, and every variable named is zero at the
      end, if it is filled or has one cell. */
  lemma {:induction false} ClearingRun(ss: seq<Statement>, m: Memory, name: string)
    requires forall k :: 0 <= k < |ss| ==> Clears(ss[k])
    ensures SameShape(ExecAll(ss, m).0, m)
    ensures AllZero(Cells(m, name)) ==> AllZero(Cells(ExecAll(ss, m).0, name))
    ensures (exists k :: 0 <= k < |ss| && Empties(ss[k], name, |Cells(m, name)|)) ==>
              AllZero(Cells(ExecAll(ss, m).0, name))
  {
    if ss != [] {
      var m1 := Exec(ss[0], m).0;
      ExecFrame(ss[0], m, name, "");
      assert AllZero(Cells(m, name)) ==> AllZero(Cells(m1, name));
      assert ss[0].name == name && (ss[0].Fill? || |Cells(m, name)| == 1) ==> AllZero(Cells(m1, name));
      ClearingRun(ss[1..], m1, name);
      assert |Cells(m1, name)| == |Cells(m, name)|;
      if k :| 0 < k < |ss| && Empties(ss[k], name, |Cells(m, name)|) { assert ss[1..][k - 1] == ss[k]; }
    }
  }

  /** The lines generated before the handlers set everything the handlers count on to zero. */
  lemma {:induction false} InitsInitialise(b: Book, m: Memory)
    requires Defined(Definitions(b), m)
    ensures Initialised(b, ExecAll(Inits(b), m).0)
  {
    var ss, defs := Inits(b), Definitions(b);
    var m' := ExecAll(ss, m).0;
    ClearingRun(ss, m, "");
    forall c | c in b.counters ensures Cells(m', c) == [0] {
      var k :| 0 <= k < |b.counters| && b.counters[k] == c;
      assert defs[k + 1] == Variable(c, 1) && ss[k] == Zero(c);
      ClearingRun(ss, m, c);
    }
    forall w | w in b.windows ensures w.name in m' && m'[w.name] == Constant(w.size, 0) {
      var k :| 0 <= k < |b.windows| && b.windows[k] == w;
      assert defs[1 + |b.counters| + k] == w && ss[|b.counters| + k] == Fill(w.name, 0);
      ClearingRun(ss, m, w.name);
    }
  }

  lemma {:induction false} FunctionsDefineNothing(b: Book, id: string, buffer: string,
      functions: seq<(string, seq<nat>)>)
    ensures var c := WithFunctions(b, id, buffer, functions); c.counters == b.counters && c.windows == b.windows
  {
    if functions != [] { FunctionsDefineNothing(b, id, buffer, functions[..|functions| - 1]); }
  }

  lemma {:induction false} EventDefines(vs: VariablesMap, events: seq<(string, EventSpec)>, e: nat)
    requires e < |events| && events[e].1.window > 0 && Known(vs, events[e].1)
    ensures var b := WithEvents(EMPTY_BOOK, vs, events); var (name, spec) := events[e];
            && (OwnCounter(spec) ==> EventName(name) in b.counters)
            && (Windowed(spec) ==> WindowName(name) in b.counters)
            && (Windowed(spec) ==> Variable(PayloadName(name), MessageSize(vs, spec)) in b.windows)
  {
    if e < |events| - 1 { EventDefines(vs, events[..|events| - 1], e); }
  }

  /** What the generator is given. */
  datatype Setup = Setup(vs: VariablesMap, id: string, buffer: string,
                         events: seq<(string, EventSpec)>, functions: seq<(string, seq<nat>)>)

  function BookOf(s: Setup): Book {
    WithFunctions(WithEvents(EMPTY_BOOK, s.vs, s.events), s.id, s.buffer, s.functions)
  }

  /** An event that is mirrored, in a configuration that names every event once. */
  ghost predicate Mirrors(s: Setup, name: string, spec: EventSpec) {
    && (name, spec) in s.events
    && spec.window > 0
    && Known(s.vs, spec)
    && (forall i, j :: 0 <= i < j < |s.events| ==> s.events[i].0 != s.events[j].0)
    && (forall j :: 0 <= j < |s.functions| ==> FunctionName(s.functions[j].0) != name)
  }

  /** A run of the generated program from the memory its script sets up. */
  ghost predicate Runs(s: Setup, m: Memory, os: seq<Occurrence>, name: string) {
    && Initialised(BookOf(s), m)
    && Separate(BookOf(s).code, name)
    && forall i :: 0 <= i < |os| ==> Undisturbed(os[i], name)
  }

  /** k windows and r samples more: k payloads emitted, the j-th with the truncated averages of samples jW
      to jW + W - 1; r is the window counter, and the payload buffer holds the sums of the last r samples. */
  ghost predicate WindowsMirrored(
    samples: seq<seq<int>>, emitted: seq<seq<int>>, m: Memory, name: string, window: nat, size: nat, k: nat, r: nat)
  {
    && |emitted| == k && k * window <= |samples|
    && (forall j :: 0 <= j < k ==> IsAverageOf(emitted[j], samples, j * window, window, size))
    && Cells(m, WindowName(name)) == [r]
    && Cells(m, PayloadName(name)) == Sums(samples[k * window..], size)
  }

  lemma {:induction false} SetupOf(s: Setup, m: Memory, name: string, spec: EventSpec)
    requires Mirrors(s, name, spec) && Initialised(BookOf(s), m)
    ensures var code := BookOf(s).code; WellMade(code) && Dispatch(code, name) == Body(s.vs, name, spec)
    ensures OwnCounter(spec) ==> Cells(m, EventName(name)) == [0]
    ensures Windowed(spec) ==> Accumulates(m, name, MessageSize(s.vs, spec), [])
  {
    var e: nat :| e < |s.events| && s.events[e] == (name, spec);
    ProgramIsWellMade(s.vs, s.id, s.buffer, s.events, s.functions);
    DispatchProgram(s.vs, s.id, s.buffer, s.events, s.functions, e);
    FunctionsDefineNothing(WithEvents(EMPTY_BOOK, s.vs, s.events), s.id, s.buffer, s.functions);
    EventDefines(s.vs, s.events, e);
    assert Sums([], MessageSize(s.vs, spec)) == Constant(MessageSize(s.vs, spec), 0);
  }

  /** Windowed mirroring, in between any other events. */
  lemma {:induction false} WindowedMirroring(
    s: Setup, name: string, spec: EventSpec, m: Memory, os: seq<Occurrence>, samples: seq<seq<int>>, k: nat, r: nat)
    requires Mirrors(s, name, spec) && Runs(s, m, os, name)
    requires 1 < spec.window <= 32767 && spec.variables != []
    requires samples == Samples(BookOf(s).code, m, os, name, spec) && |samples| == k * spec.window + r
             && r < spec.window
    ensures WindowsMirrored(samples, Emitted(BookOf(s).code, m, os, EventName(name)), Run(BookOf(s).code, m, os),
                            name, spec.window, MessageSize(s.vs, spec), k, r)
  {
    SetupOf(s, m, name, spec);
    WindowedRun(BookOf(s).code, m, os, name, spec, MessageSize(s.vs, spec));
    WindowsClosed(samples, Emitted(BookOf(s).code, m, os, EventName(name)), Run(BookOf(s).code, m, os),
                  name, spec.window, MessageSize(s.vs, spec), k, r);
  }

  lemma {:induction false} WindowsClosed(
    samples: seq<seq<int>>, emitted: seq<seq<int>>, m: Memory, name: string, window: nat, size: nat, k: nat, r: nat)
    requires window > 0 && r < window && |samples| == k * window + r
    requires Accumulates(m, name, size, Rest(samples, window)) && emitted == Averages(samples, window, size)
    ensures WindowsMirrored(samples, emitted, m, name, window, size, k, r)
  {
    WindowByWindow(samples, window, size, k, r);
  }

  /** An average is the truncated average exactly if the sum of the window fits into an int16. */
  lemma {:induction false} AverageIsExactIff(samples: seq<seq<int>>, size: nat, c: nat)
    requires 0 < |samples| <= 32767 && c < size
    ensures Average(samples, size)[c] == Quotient(SumCell(samples, c), |samples|) <==>
            -32768 <= SumCell(samples, c) <= 32767
  {
    var x, n := SumCell(samples, c), |samples|;
    WrapIsExactInRange(x);
    var q := (x + 32768) / 65536;
    assert x - Wrap(x) == q * 65536;
    QuotientIsClose(x, n);
    QuotientIsClose(Wrap(x), n);
  }

  lemma {:induction false} QuotientIsClose(x: int, n: nat)
    requires n > 0
    ensures 0 - n < x - Quotient(x, n) * n < n
  {
  }

  /** Which is so if no sample is larger than 32767 / W. */
  lemma {:induction false} SmallSamplesFit(samples: seq<seq<int>>, c: nat, bound: nat)
    requires forall k :: 0 <= k < |samples| ==> c < |samples[k]| ==> 0 - bound <= samples[k][c] <= bound
    ensures 0 - bound * |samples| <= SumCell(samples, c) <= bound * |samples|
  {
    if samples != [] {
      SmallSamplesFit(samples[..|samples| - 1], c, bound);
      assert bound * |samples| == bound * (|samples| - 1) + bound;
    }
  }

  /** Samples whose cells are so small that no window of them overflows. */
  ghost predicate Small(samples: seq<seq<int>>, window: nat) {
    forall k, c :: 0 <= k < |samples| && 0 <= c < |samples[k]| ==> IsSmall(samples[k][c], window)
  }

  predicate IsSmall(v: int, window: nat) {
    -32767 <= v * window <= 32767
  }

  lemma {:induction false} SmallBound(v: int, window: nat)
    requires window > 0 && IsSmall(v, window)
    ensures 0 - 32767 / window <= v <= 32767 / window
  {
    var bound := 32767 / window;
    if v > bound { TimesMonotone(bound + 1, v, window); }
    if v < 0 - bound { TimesMonotone(v, 0 - bound - 1, window); }
  }

  lemma {:induction false} TimesMonotone(a: int, b: int, n: nat)
    requires a <= b
    ensures a * n <= b * n
  {
  }

  /** The exact truncated averages of one window. */
  ghost predicate IsExactAverageOf(payload: seq<int>, samples: seq<seq<int>>, from: int, window: nat, size: nat) {
    && window > 0
    && 0 <= from
    && from + window <= |samples|
    && |payload| == size
    && forall c :: 0 <= c < size ==> payload[c] == Quotient(SumCell(samples[from..from + window], c), window)
  }

  /** Windowed mirroring of small samples: after k windows, emission j is the exact truncated average of samples
      jW to jW + W - 1. */
  lemma {:induction false} ExactWindowedMirroring(
    s: Setup, name: string, spec: EventSpec, m: Memory, os: seq<Occurrence>, samples: seq<seq<int>>, k: nat, r: nat,
    j: nat)
    requires Mirrors(s, name, spec) && Runs(s, m, os, name)
    requires 1 < spec.window <= 32767 && spec.variables != []
    requires samples == Samples(BookOf(s).code, m, os, name, spec) && |samples| == k * spec.window + r
             && r < spec.window
    requires Small(samples, spec.window) && j < k
    ensures var emitted := Emitted(BookOf(s).code, m, os, EventName(name));
            |emitted| == k && IsExactAverageOf(emitted[j], samples, j * spec.window, spec.window,
              MessageSize(s.vs, spec))
  {
    WindowedMirroring(s, name, spec, m, os, samples, k, r);
    SmallAverage(Emitted(BookOf(s).code, m, os, EventName(name))[j], samples, j * spec.window, spec.window,
      MessageSize(s.vs, spec));
  }

  lemma {:induction false} SmallAverage(payload: seq<int>, samples: seq<seq<int>>, from: int, window: nat, size: nat)
    requires window <= 32767 && Small(samples, window) && IsAverageOf(payload, samples, from, window, size)
    ensures IsExactAverageOf(payload, samples, from, window, size)
  {
    var mine, bound := samples[from..from + window], 32767 / window;
    forall c | 0 <= c < size ensures payload[c] == Quotient(SumCell(mine, c), window) {
      forall k | 0 <= k < |mine| && c < |mine[k]| ensures 0 - bound <= mine[k][c] <= bound {
        assert mine[k] == samples[from + k] && IsSmall(samples[from + k][c], window);
        SmallBound(mine[k][c], window);
      }
      SmallSamplesFit(mine, c, bound);
      assert bound * window <= 32767;
      AverageIsExactIff(mine, size, c);
    }
  }

  /** A window that no int16 can count: nothing is ever emitted. */
  lemma {:induction false} HugeWindowNeverEmits(s: Setup, name: string, spec: EventSpec, m: Memory, os: seq<Occurrence>)
    requires Mirrors(s, name, spec) && Runs(s, m, os, name) && spec.window > 32767 && spec.variables != []
    ensures Emitted(BookOf(s).code, m, os, EventName(name)) == []
  {
    SetupOf(s, m, name, spec);
    assert Cells(m, WindowName(name)) == [0] == [Wrap(0)];
    HugeWindowRun(BookOf(s).code, m, os, name, spec, MessageSize(s.vs, spec));
  }

  lemma {:induction false} HugeWindowRun(code: seq<Handler>, m: Memory, os: seq<Occurrence>, name: string,
      spec: EventSpec, size: nat)
    requires WellMade(code) && Separate(code, name) && forall k :: 0 <= k < |os| ==> Undisturbed(os[k], name)
    requires Windowed(spec) && spec.window > 32767 && Dispatch(code, name) == WindowBody(name, spec, size)
    requires exists x :: Cells(m, WindowName(name)) == [Wrap(x)]
    ensures Emitted(code, m, os, EventName(name)) == []
    ensures exists x :: Cells(Run(code, m, os), WindowName(name)) == [Wrap(x)]
  {
    if os != [] {
      var n := |os| - 1;
      var o, m0 := os[n], Run(code, m, os[..n]);
      HugeWindowRun(code, m, os[..n], name, spec, size);
      if o.event == name {
        var x :| Cells(m0, WindowName(name)) == [Wrap(x)];
        HugeWindowStep(Before(m0, o), name, spec, size, x);
      } else {
        OtherEvent(code, m0, o, name, WindowName(name));
      }
    }
  }

  lemma {:induction false} HugeWindowStep(m: Memory, name: string, spec: EventSpec, size: nat, x: int)
    requires Windowed(spec) && spec.window > 32767 && Cells(m, WindowName(name)) == [Wrap(x)]
    ensures var (m', effects) := ExecAll(WindowBody(name, spec, size), m);
            (Cells(m', WindowName(name)), effects) == ([Wrap(x + 1)], [])
  {
    PrivateNamesDiffer(name);
    var add := Add(PayloadName(name), Parts(name, spec));
    var m1 := Exec(add, m).0;
    ExecTwo(add, Count(name, spec), m);
    CountStep(m1, name, spec);
    HugeTurn(ExecAll(Count(name, spec), m1).0, name, spec, size, x);
    ExecAppend([add] + Count(name, spec), Turn(name, spec, size), m);
  }

  lemma {:induction false} HugeTurn(m: Memory, name: string, spec: EventSpec, size: nat, x: int)
    requires spec.window > 32767 && Cells(m, WindowName(name)) == [Wrap(x)]
    ensures ExecAll(Turn(name, spec, size), m) == (m[WindowName(name) := [Wrap(x + 1)]], [])
  {
    var turn, m1 := Turn(name, spec, size), m[WindowName(name) := [Wrap(x + 1)]];
    WrapAdd(x, 1);
    WrapIsExactInRange(x + 1);
    assert Exec(turn[0], m) == (m1, []) by { assert SetFirst([Wrap(x)], Wrap(x + 1)) == [Wrap(x + 1)]; }
    assert Exec(turn[1], m1) == (m1, []);
    assert turn == [turn[0]] + [turn[1]];
    ExecOne(turn[1], m1);
    ExecTwo(turn[0], [turn[1]], m);
  }
}
