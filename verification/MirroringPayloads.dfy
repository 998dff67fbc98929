/** What arrives: payloads of mirrored events are read back, and calls reach the node they are meant for. */
module MirroringPayloads {
  import opened Layout
  import opened AsebaCode
  import opened Int16Cells
  import opened Options
  import opened Mirroring
  import opened MirroringRuns
  import FlatMemory

  // ---------------------------------------------------------------- events without a window

  lemma {:induction false} PlainStep(m: Memory, name: string, spec: EventSpec)
    ensures ExecAll(PlainBody(name, spec), m) ==
            (ExecAll(Count(name, spec), m).0,
             [Emission(EventName(name), if spec.variables == [] then [] else Concat(m, Parts(name, spec)))])
  {
    var emit := PlainBody(name, spec)[0];
    assert PlainBody(name, spec) == [emit] + Count(name, spec);
    ExecTwo(emit, Count(name, spec), m);
    CountStep(m, name, spec);
    assert Exec(emit, m).1 + [] == Exec(emit, m).1;
  }

  /** The payload of an event without a window: its sample; nothing at all if no variables are asked for. */
  function PlainPayload(spec: EventSpec, sample: seq<int>): seq<int> {
    if spec.variables == [] then [] else sample
  }

  function PlainPayloads(spec: EventSpec, samples: seq<seq<int>>): (r: seq<seq<int>>)
    ensures |r| == |samples| && forall k :: 0 <= k < |samples| ==> r[k] == PlainPayload(spec, samples[k])
  {
    seq(|samples|, k requires 0 <= k < |samples| => PlainPayload(spec, samples[k]))
  }

  /** Every event is mirrored by one emission, of the sample taken at that moment; of nothing at all, not
      even the counter, if no variables are asked for. */
  lemma {:induction false} PlainMirroring(s: Setup, name: string, spec: EventSpec, m: Memory, os: seq<Occurrence>)
    requires Mirrors(s, name, spec) && Runs(s, m, os, name) && (spec.window <= 1 || spec.variables == [])
    ensures Emitted(BookOf(s).code, m, os, EventName(name)) ==
            PlainPayloads(spec, Samples(BookOf(s).code, m, os, name, spec))
  {
    SetupOf(s, m, name, spec);
    PlainRun(BookOf(s).code, m, os, name, spec);
  }

  lemma {:induction false} PlainRun(code: seq<Handler>, m: Memory, os: seq<Occurrence>, name: string, spec: EventSpec)
    requires WellMade(code) && Separate(code, name) && forall k :: 0 <= k < |os| ==> Undisturbed(os[k], name)
    requires Dispatch(code, name) == PlainBody(name, spec)
    ensures Emitted(code, m, os, EventName(name)) == PlainPayloads(spec, Samples(code, m, os, name, spec))
  {
    if os != [] {
      var n := |os| - 1;
      var o, m0, samples := os[n], Run(code, m, os[..n]), Samples(code, m, os[..n], name, spec);
      PlainRun(code, m, os[..n], name, spec);
      if o.event == name {
        PlainHere(code, Before(m0, o), name, spec);
        PlainSnoc(spec, samples, Concat(Before(m0, o), Parts(name, spec)));
      } else {
        OtherEvent(code, m0, o, name, EventName(name));
      }
    }
  }

  lemma {:induction false} PlainSnoc(spec: EventSpec, samples: seq<seq<int>>, sample: seq<int>)
    ensures PlainPayloads(spec, samples + [sample]) == PlainPayloads(spec, samples) + [PlainPayload(spec, sample)]
  {
  }

  lemma {:induction false} PlainHere(code: seq<Handler>, m: Memory, name: string, spec: EventSpec)
    requires Dispatch(code, name) == PlainBody(name, spec)
    ensures Payloads(ExecAll(Dispatch(code, name), m).1, EventName(name))
         == [PlainPayload(spec, Concat(m, Parts(name, spec)))]
  {
    PlainStep(m, name, spec);
  }

  // ---------------------------------------------------------------- counters

  /** A sample is the values of the variables asked for, and of the counter: the event's own, or the one named. */
  lemma {:induction false} SampleIs(m: Memory, name: string, spec: EventSpec)
    ensures Concat(m, Parts(name, spec)) == Concat(m, spec.variables) +
            if !spec.useCounter then []
            else if spec.externalCounter == "" then Cells(m, "event_" + name)
            else Cells(m, spec.externalCounter)
  {
    if spec.useCounter {
      ConcatSnoc(m, spec.variables, if spec.externalCounter == "" then "event_" + name else spec.externalCounter);
    } else {
      assert spec.variables + [] == spec.variables;
    }
  }

  /** The own counter has counted the occurrences, and the i-th sample ends with i, both as int16. */
  lemma {:induction false} OwnCounterCounts(s: Setup, name: string, spec: EventSpec, m: Memory, os: seq<Occurrence>)
    requires Mirrors(s, name, spec) && Runs(s, m, os, name) && spec.useCounter && spec.externalCounter == ""
    ensures var samples := Samples(BookOf(s).code, m, os, name, spec);
            Counted(Run(BookOf(s).code, m, os), name, |samples|) && Numbered(samples)
  {
    SetupOf(s, m, name, spec);
    WrapIsExactInRange(0);
    CounterRun(BookOf(s).code, m, os, s.vs, name, spec);
  }

  lemma {:induction false} CounterRun(
    code: seq<Handler>, m: Memory, os: seq<Occurrence>, vs: VariablesMap, name: string, spec: EventSpec)
    requires WellMade(code) && Separate(code, name) && forall k :: 0 <= k < |os| ==> Undisturbed(os[k], name)
    requires Dispatch(code, name) == Body(vs, name, spec) && OwnCounter(spec) && Counted(m, name, 0)
    ensures var samples := Samples(code, m, os, name, spec);
            Counted(Run(code, m, os), name, |samples|) && Numbered(samples)
  {
    if os == [] {
      assert Numbered([]);
    } else {
      var n := |os| - 1;
      var o, m0, samples := os[n], Run(code, m, os[..n]), Samples(code, m, os[..n], name, spec);
      CounterRun(code, m, os[..n], vs, name, spec);
      if o.event == name {
        CounterStep(Before(m0, o), vs, name, spec, |samples|);
        NumberedSnoc(samples, Concat(Before(m0, o), Parts(name, spec)));
      } else {
        OtherEvent(code, m0, o, name, EventName(name));
        assert samples + [] == samples;
      }
    }
  }

  ghost predicate Counted(m: Memory, name: string, count: nat) {
    Cells(m, EventName(name)) == [Wrap(count)]
  }

  ghost predicate Numbered(samples: seq<seq<int>>) {
    forall i :: 0 <= i < |samples| ==> EndsWith(samples[i], Wrap(i))
  }

  lemma {:induction false} NumberedSnoc(samples: seq<seq<int>>, sample: seq<int>)
    requires Numbered(samples) && EndsWith(sample, Wrap(|samples|))
    ensures Numbered(samples + [sample])
  {
  }

  ghost predicate EndsWith(xs: seq<int>, x: int) {
    xs != [] && xs[|xs| - 1] == x
  }

  lemma {:induction false} CounterStep(m: Memory, vs: VariablesMap, name: string, spec: EventSpec, count: nat)
    requires OwnCounter(spec) && Counted(m, name, count)
    ensures Counted(ExecAll(Body(vs, name, spec), m).0, name, count + 1)
    ensures EndsWith(Concat(m, Parts(name, spec)), Wrap(count))
  {
    ConcatSnoc(m, spec.variables, EventName(name));
    BodyCounts(m, vs, name, spec, Wrap(count));
    WrapAdd(count, 1);
  }

  lemma {:induction false} BodyCounts(m: Memory, vs: VariablesMap, name: string, spec: EventSpec, x: int)
    requires OwnCounter(spec) && Cells(m, EventName(name)) == [x]
    ensures Cells(ExecAll(Body(vs, name, spec), m).0, EventName(name)) == [Wrap(x + 1)]
  {
    if Windowed(spec) {
      WindowCounterStep(m, name, spec, MessageSize(vs, spec), x);
    } else {
      PlainCounterStep(m, name, spec, x);
    }
  }

  lemma {:induction false} PlainCounterStep(m: Memory, name: string, spec: EventSpec, x: int)
    requires OwnCounter(spec) && Cells(m, EventName(name)) == [x]
    ensures Cells(ExecAll(PlainBody(name, spec), m).0, EventName(name)) == [Wrap(x + 1)]
  {
    PlainStep(m, name, spec);
    CountStep(m, name, spec);
  }

  lemma {:induction false} WindowCounterStep(m: Memory, name: string, spec: EventSpec, size: nat, x: int)
    requires OwnCounter(spec) && Cells(m, EventName(name)) == [x]
    ensures Cells(ExecAll(WindowBody(name, spec, size), m).0, EventName(name)) == [Wrap(x + 1)]
  {
    PrivateNamesDiffer(name);
    var add := Add(PayloadName(name), Parts(name, spec));
    var m1 := Exec(add, m).0;
    ExecTwo(add, Count(name, spec), m);
    CountStep(m1, name, spec);
    TurnKeepsCounter(ExecAll(Count(name, spec), m1).0, name, spec, size);
    ExecAppend([add] + Count(name, spec), Turn(name, spec, size), m);
  }

  lemma {:induction false} TurnKeepsCounter(m: Memory, name: string, spec: EventSpec, size: nat)
    ensures Cells(ExecAll(Turn(name, spec, size), m).0, EventName(name)) == Cells(m, EventName(name))
  {
    PrivateNamesDiffer(name);
    var others := {WindowName(name), PayloadName(name)};
    var window := if spec.window > 0 then spec.window else 1;
    KeepsAll(Publish(name, window, size), others, {EventName(name)});
    KeepsAll(Turn(name, spec, size), others, {EventName(name)});
    ExecAllFrame(Turn(name, spec, size), m, EventName(name), "");
  }

  // ---------------------------------------------------------------- payload layout

  /** The variables of the node have the sizes it has declared. */
  ghost predicate Sized(vs: VariablesMap, m: Memory) {
    forall n :: n in vs ==> n in m && |m[n]| == vs[n].size
  }

  lemma {:induction false} SizedRun(code: seq<Handler>, vs: VariablesMap, m: Memory, os: seq<Occurrence>)
    requires Sized(vs, m) && SizedAll(vs, os)
    ensures Sized(vs, Run(code, m, os))
  {
    if os != [] {
      var n := |os| - 1;
      SizedRun(code, vs, m, os[..n]);
      ExecAllFrame(Dispatch(code, os[n].event), Before(Run(code, m, os[..n]), os[n]), "", "");
    }
  }

  lemma {:induction false} ConcatLength(vs: VariablesMap, m: Memory, names: seq<string>, k: nat)
    requires Sized(vs, m) && (forall n :: n in names ==> n in vs) && k <= |names|
    ensures |Concat(m, names[..k])| == Offset(Selected(vs, names), k)
  {
    if k > 0 {
      ConcatLength(vs, m, names, k - 1);
      assert names[..k] == names[..k - 1] + [names[k - 1]];
      ConcatSnoc(m, names[..k - 1], names[k - 1]);
    }
  }

  /** Reading undoes concatenating: every variable asked for gets its own cells back. */
  lemma {:induction false} PiecesOfConcat(vs: VariablesMap, m: Memory, names: seq<string>, rest: seq<int>, name: string)
    requires Sized(vs, m) && (forall n :: n in names ==> n in vs)
    ensures var pieces := Pieces(Concat(m, names) + rest, Selected(vs, names));
            Lookup(pieces, name) == if name in names then Some(Cells(m, name)) else None
  {
    var data, sel := Concat(m, names) + rest, Selected(vs, names);
    forall j | 0 <= j < |sel| && sel[j].name == name ensures PieceIs(data, sel, j, Cells(m, name)) {
      PieceOfConcat(vs, m, names, rest, j);
    }
    PieceNames(data, sel, |sel|, name);
    PieceValue(data, sel, |sel|, name, Cells(m, name));
    assert forall j :: 0 <= j < |sel| ==> sel[j].name == names[j];
  }

  ghost predicate PieceIs(data: seq<int>, sel: seq<Variable>, j: nat, value: seq<int>)
    requires j < |sel|
  {
    Clip(data, Offset(sel, j), Offset(sel, j + 1)) == value
  }

  lemma {:induction false} PieceNames(data: seq<int>, sel: seq<Variable>, k: nat, name: string)
    requires k <= |sel|
    ensures name in PiecesUpTo(data, sel, k) <==> exists j :: 0 <= j < k && sel[j].name == name
  {
    if k > 0 { PieceNames(data, sel, k - 1, name); }
  }

  lemma {:induction false} PieceValue(data: seq<int>, sel: seq<Variable>, k: nat, name: string, value: seq<int>)
    requires k <= |sel| && forall j :: 0 <= j < k && sel[j].name == name ==> PieceIs(data, sel, j, value)
    ensures name in PiecesUpTo(data, sel, k) ==> PiecesUpTo(data, sel, k)[name] == value
  {
    if k > 0 {
      if sel[k - 1].name == name {
        assert PieceIs(data, sel, k - 1, value);
      } else {
        PieceValue(data, sel, k - 1, name, value);
      }
    }
  }

  lemma {:induction false} PieceOfConcat(vs: VariablesMap, m: Memory, names: seq<string>, rest: seq<int>, k: nat)
    requires Sized(vs, m) && (forall n :: n in names ==> n in vs) && k < |names|
    ensures var sel := Selected(vs, names);
            Clip(Concat(m, names) + rest, Offset(sel, k), Offset(sel, k + 1)) == Cells(m, names[k])
  {
    ConcatOffsets(vs, m, names, k);
    ConcatBegins(m, names, k);
    ClipMiddle(Concat(m, names[..k]), Cells(m, names[k]), Concat(m, names) + rest);
  }

  lemma {:induction false} ConcatOffsets(vs: VariablesMap, m: Memory, names: seq<string>, k: nat)
    requires Sized(vs, m) && (forall n :: n in names ==> n in vs) && k < |names|
    ensures var sel := Selected(vs, names);
            Offset(sel, k) == |Concat(m, names[..k])|
              && Offset(sel, k + 1) == |Concat(m, names[..k])| + |Cells(m, names[k])|
  {
    ConcatLength(vs, m, names, k);
    assert names[k] in names;
  }

  lemma {:induction false} ConcatBegins(m: Memory, names: seq<string>, k: nat)
    requires k < |names|
    ensures Concat(m, names[..k]) + Cells(m, names[k]) <= Concat(m, names)
  {
    assert names[..k + 1] == names[..k] + [names[k]] && names[..|names|] == names;
    ConcatSnoc(m, names[..k], names[k]);
    ConcatPrefix(m, names, k + 1, |names|);
  }

  lemma {:induction false} ClipMiddle(before: seq<int>, xs: seq<int>, data: seq<int>)
    requires before + xs <= data
    ensures Clip(data, |before|, |before| + |xs|) == xs
  {
  }

  lemma {:induction false} ConcatPrefix(m: Memory, names: seq<string>, j: nat, k: nat)
    requires j <= k <= |names|
    ensures Concat(m, names[..j]) <= Concat(m, names[..k])
  {
    if j < k {
      ConcatPrefix(m, names, j, k - 1);
      assert names[..k] == names[..k - 1] + [names[k - 1]];
      ConcatSnoc(m, names[..k - 1], names[k - 1]);
    }
  }

  /** Round trip: the client reads back from the payload exactly the values mirrored. */
  lemma {:induction false} EventRoundTrip(s: Setup, name: string, spec: EventSpec, m: Memory, variable: string)
    requires Mirrors(s, name, spec) && Sized(s.vs, m)
    ensures EventName(name) in BookOf(s).eventsVariables
    ensures var read := Pieces(Concat(m, Parts(name, spec)), BookOf(s).eventsVariables[EventName(name)]);
            Lookup(read, variable) == if variable in spec.variables then Some(Cells(m, variable)) else None
  {
    BookHas(s, name, spec);
    var counter := Parts(name, spec)[|spec.variables|..];
    assert Parts(name, spec) == spec.variables + counter;
    var rest := if counter == [] then [] else Cells(m, counter[0]);
    if counter == [] {
      assert Parts(name, spec) == spec.variables && Concat(m, spec.variables) + [] == Concat(m, spec.variables);
    } else {
      assert counter == [counter[0]];
      ConcatSnoc(m, spec.variables, counter[0]);
    }
    PiecesOfConcat(s.vs, m, spec.variables, rest, variable);
  }

  /** The node's memory every time a local event happened. */
  function Moments(code: seq<Handler>, m: Memory, os: seq<Occurrence>, name: string): seq<Memory> {
    if os == [] then []
    else
      var n := |os| - 1;
      Moments(code, m, os[..n], name) + if os[n].event == name then [Before(Run(code, m, os[..n]), os[n])] else []
  }

  /** What happens on the node keeps the sizes of its variables. */
  ghost predicate SizedAll(vs: VariablesMap, os: seq<Occurrence>) {
    forall k, n :: 0 <= k < |os| && n in os[k].values && n in vs ==> |os[k].values[n]| == vs[n].size
  }

  /** Samples are what the memory holds at these moments. */
  lemma {:induction false} SamplesAtMoments(
    code: seq<Handler>, vs: VariablesMap, m: Memory, os: seq<Occurrence>, name: string, spec: EventSpec, i: nat)
    requires Sized(vs, m) && SizedAll(vs, os)
    ensures |Samples(code, m, os, name, spec)| == |Moments(code, m, os, name)|
    ensures i < |Moments(code, m, os, name)| ==>
              var moment := Moments(code, m, os, name)[i];
              Samples(code, m, os, name, spec)[i] == Concat(moment, Parts(name, spec)) && Sized(vs, moment)
  {
    if os != [] {
      var n := |os| - 1;
      SamplesAtMoments(code, vs, m, os[..n], name, spec, i);
      SizedRun(code, vs, m, os[..n]);
    }
  }

  /** Round trip over a run: reading the i-th payload emitted gives every variable asked for the value that it
      had when the event happened for the i-th time. */
  lemma {:induction false} RunRoundTrip(
    s: Setup, name: string, spec: EventSpec, m: Memory, os: seq<Occurrence>, i: nat, variable: string)
    requires Mirrors(s, name, spec) && Runs(s, m, os, name) && Sized(s.vs, m) && SizedAll(s.vs, os)
    requires spec.window <= 1 || spec.variables == []
    requires i < |Moments(BookOf(s).code, m, os, name)|
    ensures var emitted := Emitted(BookOf(s).code, m, os, EventName(name));
            && |emitted| == |Moments(BookOf(s).code, m, os, name)|
            && EventName(name) in BookOf(s).eventsVariables
            && var read := Pieces(emitted[i], BookOf(s).eventsVariables[EventName(name)]);
               Lookup(read, variable) ==
               if variable in spec.variables then Some(Cells(Moments(BookOf(s).code, m, os, name)[i], variable))
               else None
  {
    var moment := Moments(BookOf(s).code, m, os, name)[i];
    PlainMirroring(s, name, spec, m, os);
    SamplesAtMoments(BookOf(s).code, s.vs, m, os, name, spec, i);
    EventRoundTrip(s, name, spec, moment, variable);
    BookHas(s, name, spec);
  }

  /** The books list the event with its variables and its declared size. */
  lemma {:induction false} BookHas(s: Setup, name: string, spec: EventSpec)
    requires Mirrors(s, name, spec)
    ensures var b := BookOf(s);
            && Lookup(b.eventsVariables, EventName(name)) == Some(Selected(s.vs, spec.variables))
            && Lookup(b.codeEvents, EventName(name)) == Some(MessageSize(s.vs, spec))
  {
    var e: nat :| e < |s.events| && s.events[e] == (name, spec);
    EventsBookHas(s.vs, s.events, e);
    FunctionsKeepEvents(WithEvents(EMPTY_BOOK, s.vs, s.events), s.id, s.buffer, s.functions, name);
  }

  lemma {:induction false} EventsBookHas(vs: VariablesMap, events: seq<(string, EventSpec)>, e: nat)
    requires e < |events| && events[e].1.window > 0 && Known(vs, events[e].1)
    requires forall i, j :: 0 <= i < j < |events| ==> events[i].0 != events[j].0
    ensures var b, event := WithEvents(EMPTY_BOOK, vs, events), EventName(events[e].0);
            && Lookup(b.eventsVariables, event) == Some(Selected(vs, events[e].1.variables))
            && Lookup(b.codeEvents, event) == Some(MessageSize(vs, events[e].1))
  {
    var n := |events| - 1;
    if e < n {
      EventsBookHas(vs, events[..n], e);
      if EventName(events[e].0) == EventName(events[n].0) { EventNamesDiffer(events[e].0, events[n].0); }
    }
  }

  lemma {:induction false} FunctionsKeepEvents(
    b: Book, id: string, buffer: string, functions: seq<(string, seq<nat>)>, name: string)
    ensures var c, event := WithFunctions(b, id, buffer, functions), EventName(name);
            && c.eventsVariables == b.eventsVariables
            && (event in c.codeEvents <==> event in b.codeEvents)
            && (event in b.codeEvents ==> c.codeEvents[event] == b.codeEvents[event])
  {
    if functions != [] {
      var n := |functions| - 1;
      FunctionsKeepEvents(b, id, buffer, functions[..n], name);
      assert FunctionName(functions[n].0)[0] == 'c' && EventName(name)[0] == 'e';
    }
  }

  /** The counter put at the end of the payload. */
  function CounterOf(name: string, spec: EventSpec): string {
    if OwnCounter(spec) then EventName(name) else spec.externalCounter
  }

  /** Without a window, the declared size is the size emitted exactly if there is no counter, or else there are
      variables and the counter has one cell: without variables the counter is declared but not emitted. */
  lemma {:induction false} DeclaredSizeIff(s: Setup, name: string, spec: EventSpec, m: Memory)
    requires Mirrors(s, name, spec) && Sized(s.vs, m) && (spec.window <= 1 || spec.variables == [])
    ensures EventName(name) in BookOf(s).codeEvents
    ensures var emitted := PlainPayload(spec, Concat(m, Parts(name, spec)));
            BookOf(s).codeEvents[EventName(name)] == |emitted|
            <==> !spec.useCounter || (spec.variables != [] && |Cells(m, CounterOf(name, spec))| == 1)
  {
    BookHas(s, name, spec);
    var k := |spec.variables|;
    assert spec.variables[..k] == spec.variables;
    ConcatLength(s.vs, m, spec.variables, k);
    if spec.useCounter {
      ConcatSnoc(m, spec.variables, CounterOf(name, spec));
    } else {
      assert Parts(name, spec) == spec.variables;
    }
  }

  /** With a window, every emission of every run has the declared size. */
  lemma {:induction false} WindowedSizeIsDeclared(
    s: Setup, name: string, spec: EventSpec, m: Memory, os: seq<Occurrence>, j: nat)
    requires Mirrors(s, name, spec) && Runs(s, m, os, name) && spec.window > 1 && spec.variables != []
    ensures EventName(name) in BookOf(s).codeEvents
    ensures var emitted := Emitted(BookOf(s).code, m, os, EventName(name));
            j < |emitted| ==> |emitted[j]| == BookOf(s).codeEvents[EventName(name)]
  {
    BookHas(s, name, spec);
    WindowedSize(s, name, spec, m, os, j);
  }

  lemma {:induction false} WindowedSize(s: Setup, name: string, spec: EventSpec, m: Memory, os: seq<Occurrence>, j: nat)
    requires Mirrors(s, name, spec) && Runs(s, m, os, name) && Windowed(spec)
    ensures var emitted := Emitted(BookOf(s).code, m, os, EventName(name));
            j < |emitted| ==> |emitted[j]| == MessageSize(s.vs, spec)
  {
    if spec.window <= 32767 {
      var code, size := BookOf(s).code, MessageSize(s.vs, spec);
      SetupOf(s, m, name, spec);
      WindowedRun(code, m, os, name, spec, size);
      AveragesHaveSize(Samples(code, m, os, name, spec), spec.window, size, j);
    } else {
      HugeWindowNeverEmits(s, name, spec, m, os);
    }
  }

  lemma {:induction false} AveragesHaveSize(samples: seq<seq<int>>, window: nat, size: nat, j: nat)
    requires window > 0
    ensures j < |Averages(samples, window, size)| ==> |Averages(samples, window, size)[j]| == size
  {
    var k := |samples| / window;
    WindowByWindow(samples, window, size, k, |samples| % window);
    assert j < k ==> IsAverageOf(Averages(samples, window, size)[j], samples, j * window, window, size);
  }

  // ---------------------------------------------------------------- function calls

  /** A received event's arguments are copied to the front of the buffer, as many as fit. */
  function Received(m: Memory, buffer: string, data: seq<int>): Memory {
    Store(m, buffer, FlatMemory.Overwrite(Cells(m, buffer), 0, data))
  }

  /** Consecutive arguments of the given sizes. */
  function Segments(args: seq<int>, sizes: seq<nat>): seq<seq<int>>
    requires Sum(sizes) <= |args|
  {
    if sizes == [] then [] else [args[..sizes[0]]] + Segments(args[sizes[0]..], sizes[1..])
  }

  /** The slices tile the buffer: each begins where the one before ends, and together they are sum cells long. */
  lemma {:induction false} SlicesTile(sizes: seq<nat>, i: nat, k: nat)
    requires k < |sizes|
    ensures |Slices(sizes, i)| == |sizes|
    ensures Slices(sizes, i)[k] == Slice(i + Sum(sizes[..k]), i + Sum(sizes[..k + 1]) - 1)
    ensures Sum(sizes[..|sizes|]) == Sum(sizes)
  {
    assert sizes[..|sizes|] == sizes;
    SlicesCount(sizes[1..], i + sizes[0]);
    assert sizes[..k + 1][1..] == sizes[1..][..k];
    if k > 0 {
      SlicesTile(sizes[1..], i + sizes[0], k - 1);
      assert sizes[..k][1..] == sizes[1..][..k - 1];
    }
  }

  lemma {:induction false} SlicesCount(sizes: seq<nat>, i: nat)
    ensures |Slices(sizes, i)| == |sizes|
  {
    if sizes != [] { SlicesCount(sizes[1..], i + sizes[0]); }
  }

  lemma {:induction false} ArgumentsAreSegments(buffer: seq<int>, i: nat, args: seq<int>, sizes: seq<nat>)
    requires Sum(sizes) <= |args| && i + Sum(sizes) <= |buffer|
    requires forall c :: 0 <= c < Sum(sizes) ==> buffer[i + c] == args[c]
    ensures Arguments(buffer, Slices(sizes, i)) == Segments(args, sizes)
    decreases |sizes|
  {
    if sizes != [] {
      var n, rest := sizes[0], sizes[1..];
      FirstArgument(buffer, i, args, n);
      forall c | 0 <= c < Sum(rest) ensures buffer[i + n + c] == args[n..][c] {
        assert buffer[i + (n + c)] == args[n + c];
      }
      ArgumentsAreSegments(buffer, i + n, args[n..], rest);
      assert Slices(sizes, i) == [Slice(i, i + n - 1)] + Slices(rest, i + n);
      assert Segments(args, sizes) == [args[..n]] + Segments(args[n..], rest);
    }
  }

  lemma {:induction false} FirstArgument(buffer: seq<int>, i: nat, args: seq<int>, n: nat)
    requires n <= |args| && i + n <= |buffer| && forall c :: 0 <= c < n ==> buffer[i + c] == args[c]
    ensures Argument(buffer, Slice(i, i + n - 1)) == args[..n]
  {
  }

  /** A call received by a node: the payload of a message holds int16 only. The handler calls the function with
      exactly the segments of the arguments, if the first value received is the node's id, and otherwise does
      nothing. */
  lemma {:induction false} CallMarshalling(
    id: string, buffer: string, name: string, sizes: seq<nat>, m: Memory, own: int, addressed: int, args: seq<int>)
    requires id != buffer && Cells(m, id) == [own] && 1 + Sum(sizes) <= |Cells(m, buffer)|
    requires forall k :: 0 <= k < |sizes| ==> sizes[k] > 0
    requires Sum(sizes) <= |args| && IsInt16(addressed) && AllInt16(args)
    ensures ExecAll(FunctionBody(id, buffer, name, sizes), Received(m, buffer, [addressed] + args)) ==
            (Received(m, buffer, [addressed] + args), if own == addressed then [Called(name, Segments(args, sizes))]
              else [])
  {
    var now := Received(m, buffer, [addressed] + args);
    var cells := Cells(now, buffer);
    assert cells[0] == addressed;
    forall c | 0 <= c < Sum(sizes) ensures cells[1 + c] == args[c] {
      assert ([addressed] + args)[1 + c] == args[c];
    }
    ArgumentsAreSegments(cells, 1, args, sizes);
    var call := Statement.Call(name, buffer, Slices(sizes, 1));
    ExecOne(call, now);
    ExecOne(WhenSame(id, buffer, 0, [call]), now);
  }

  /** int16 is the int16 of the same bits, exactly if the id is not 32768. */
  lemma {:induction false} Int16Iff(x: int)
    requires 0 <= x < 65536
    ensures Int16(x) == Wrap(x) <==> x != 32768
  {
  }

  /** The guard passes on the addressed node and on no other; for id 32768 it passes on none at all. */
  lemma {:induction false} GuardIff(own: int, addressed: int)
    requires 0 <= own < 65536 && 0 <= addressed < 65536
    ensures Wrap(own) == Int16(addressed) <==> own == addressed && addressed != 32768
  {
  }

  /** What a node does on a call: nothing, if the bindings have refused to send it. */
  function OnCall(s: Setup, name: string, m: Memory, addressed: int, args: seq<int>): seq<Effect> {
    var data := CallData(addressed, args);
    if data.None? then [] else ExecAll(Dispatch(BookOf(s).code, FunctionName(name)),
      Received(m, s.buffer, data.value)).1
  }

  /** From Node.call to the native function: it is called with the arguments passed, on the addressed node and
      no other, exactly if all of them are int16 and the id is not 32768. The declared size of the event is that of
      the arguments, one less than that of the payload. */
  lemma {:induction false} CallArrives(s: Setup, k: nat, m: Memory, own: int, addressed: int, args: seq<int>)
    requires k < |s.functions| && forall i, j :: 0 <= i < j < |s.functions| ==> s.functions[i].0 != s.functions[j].0
    requires forall i :: 0 <= i < |s.functions[k].1| ==> s.functions[k].1[i] > 0
    requires 0 <= own < 65536 && 0 <= addressed < 65536 && s.id != s.buffer && Cells(m, s.id) == [Wrap(own)]
    requires 1 + Sum(s.functions[k].1) <= |Cells(m, s.buffer)| && Sum(s.functions[k].1) <= |args|
    ensures var (name, sizes) := s.functions[k];
            && Lookup(BookOf(s).functions, name) == Some(FunctionName(name))
            && OnCall(s, name, m, addressed, args) ==
               (if own == addressed && addressed != 32768 && AllInt16(args) then [Called(name, Segments(args, sizes))]
                 else [])
            && Lookup(BookOf(s).codeEvents, FunctionName(name)) == Some(Sum(sizes))
  {
    var (name, sizes) := s.functions[k];
    var data := CallData(addressed, args);
    GuardIff(own, addressed);
    if data.Some? {
      assert data.value == [Int16(addressed)] + args;
      DispatchFunction(s.vs, s.id, s.buffer, s.events, s.functions, k);
      CallMarshalling(s.id, s.buffer, name, sizes, m, Wrap(own), Int16(addressed), args);
    }
    FunctionsBookHas(WithEvents(EMPTY_BOOK, s.vs, s.events), s.id, s.buffer, s.functions, k);
  }

  lemma {:induction false} FunctionsBookHas(b: Book, id: string, buffer: string, functions: seq<(string, seq<nat>)>,
      k: nat)
    requires k < |functions| && forall i, j :: 0 <= i < j < |functions| ==> functions[i].0 != functions[j].0
    ensures var c := WithFunctions(b, id, buffer, functions); var (name, sizes) := functions[k];
            && Lookup(c.functions, name) == Some(FunctionName(name))
            && Lookup(c.codeEvents, FunctionName(name)) == Some(Sum(sizes))
  {
    var n := |functions| - 1;
    if k < n {
      FunctionsBookHas(b, id, buffer, functions[..n], k);
      assert FunctionName(functions[n].0)[5..] == functions[n].0 && FunctionName(functions[k].0)[5..] == functions[k].0;
    }
  }

  // ---------------------------------------------------------------- names

  /** The event is configured, with a window, and for variables that the node has. */
  ghost predicate IsMirrored(vs: VariablesMap, events: seq<(string, EventSpec)>, name: string) {
    exists k :: 0 <= k < |events| && events[k].0 == name && events[k].1.window > 0 && NodeHas(vs, events[k].1)
  }

  ghost predicate NodeHas(vs: VariablesMap, spec: EventSpec) {
    forall variable :: variable in spec.variables ==> variable in vs
  }

  lemma {:induction false} IsMirroredStep(vs: VariablesMap, events: seq<(string, EventSpec)>, name: string)
    requires events != []
    ensures var (last, spec) := events[|events| - 1];
            IsMirrored(vs, events, name) <==>
            IsMirrored(vs, events[..|events| - 1], name) || (last == name && spec.window > 0 && NodeHas(vs, spec))
  {
    var n := |events| - 1;
    assert IsMirrored(vs, events[..n], name) ==> IsMirrored(vs, events, name);
  }

  lemma {:induction false} UserEventsAre(
    vs: VariablesMap, events: seq<(string, EventSpec)>, name: string, event: string)
    ensures Lookup(WithEvents(EMPTY_BOOK, vs, events).userEvents, name) == Some(event) <==>
            event == "event_" + name && IsMirrored(vs, events, name)
  {
    if events != [] {
      UserEventsAre(vs, events[..|events| - 1], name, event);
      IsMirroredStep(vs, events, name);
    }
  }

  lemma {:induction false} EventsAre(vs: VariablesMap, events: seq<(string, EventSpec)>, name: string, event: string)
    ensures Lookup(WithEvents(EMPTY_BOOK, vs, events).events, event) == Some(name) <==>
            event == "event_" + name && IsMirrored(vs, events, name)
  {
    if events != [] {
      var last := events[|events| - 1].0;
      EventsAre(vs, events[..|events| - 1], name, event);
      IsMirroredStep(vs, events, name);
      assert ("event_" + last)[6..] == last && ("event_" + name)[6..] == name;
    }
  }

  lemma {:induction false} FunctionTables(
    b: Book, id: string, buffer: string, functions: seq<(string, seq<nat>)>, name: string, event: string)
    requires b.functions == map[]
    ensures var c := WithFunctions(b, id, buffer, functions);
            && c.events == b.events && c.userEvents == b.userEvents
            && (Lookup(c.functions, name) == Some(event) <==>
                  event == "call_" + name && exists k :: 0 <= k < |functions| && functions[k].0 == name)
  {
    if functions != [] {
      var n := |functions| - 1;
      FunctionTables(b, id, buffer, functions[..n], name, event);
      assert (exists k :: 0 <= k < |functions| && functions[k].0 == name) <==>
             functions[n].0 == name || exists k :: 0 <= k < n && functions[..n][k].0 == name by {
        if k :| 0 <= k < n && functions[..n][k].0 == name { assert functions[k].0 == name; }
        if k :| 0 <= k < |functions| && functions[k].0 == name { assert k < n ==> functions[..n][k].0 == name; }
      }
    }
  }

  /** The name under which the client looks for an event is the one that the node emits, and leads back to the event;
      there is one exactly for the events mirrored, and for the functions exposed. */
  lemma {:induction false} NamesLeadBack(vs: VariablesMap, id: string, buffer: string,
    events: seq<(string, EventSpec)>, functions: seq<(string, seq<nat>)>, name: string, event: string)
    ensures var b := WithFunctions(WithEvents(EMPTY_BOOK, vs, events), id, buffer, functions);
            && (Lookup(b.userEvents, name) == Some(event) <==> Lookup(b.events, event) == Some(name))
            && (Lookup(b.userEvents, name) == Some(event) <==> event == "event_" + name && IsMirrored(vs, events, name))
            && (Lookup(b.functions, name) == Some(event) <==>
                  event == "call_" + name && exists k :: 0 <= k < |functions| && functions[k].0 == name)
            && forall k :: 0 <= k < |b.code| ==> EmitsAll(b.code[k].body) <= {"event_" + b.code[k].event}
  {
    UserEventsAre(vs, events, name, event);
    EventsAre(vs, events, name, event);
    NoFunctionsYet(vs, events);
    FunctionTables(WithEvents(EMPTY_BOOK, vs, events), id, buffer, functions, name, event);
    ProgramIsWellMade(vs, id, buffer, events, functions);
  }

  lemma {:induction false} NoFunctionsYet(vs: VariablesMap, events: seq<(string, EventSpec)>)
    ensures WithEvents(EMPTY_BOOK, vs, events).functions == map[]
  {
    if events != [] { NoFunctionsYet(vs, events[..|events| - 1]); }
  }

  /** A variable that the handler of a mirrored event has to itself: its counter, and of a window the position and the
      payload. */
  ghost predicate Needs(vs: VariablesMap, name: string, spec: EventSpec, v: Variable) {
    && spec.window > 0 && NodeHas(vs, spec)
    && (|| (v == Variable("event_" + name, 1) && spec.useCounter && spec.externalCounter == "")
        || (v == Variable(name + "_window", 1) && spec.window > 1 && spec.variables != [])
        || (v == Variable(name + "_payload", MessageSize(vs, spec)) && spec.window > 1 && spec.variables != []))
  }

  /** Exactly these variables are defined, and one for the loops. */
  lemma {:induction false} DefinedIff(vs: VariablesMap, id: string, buffer: string,
    events: seq<(string, EventSpec)>, functions: seq<(string, seq<nat>)>, v: Variable)
    ensures v in Definitions(WithFunctions(WithEvents(EMPTY_BOOK, vs, events), id, buffer, functions)) <==>
            v == Variable("temp", 1) || exists k :: 0 <= k < |events| && Needs(vs, events[k].0, events[k].1, v)
  {
    var b := WithEvents(EMPTY_BOOK, vs, events);
    FunctionsDefineNothing(b, id, buffer, functions);
    DefinedByEvents(vs, events, v);
    var defined, n := Definitions(b), |b.counters|;
    assert defined[0] == Variable("temp", 1);
    assert forall j :: 0 <= j < n ==> defined[j + 1] == Variable(b.counters[j], 1);
    assert defined[n + 1..] == b.windows;
    assert v in defined <==> v == defined[0] || v in defined[1..n + 1] || v in defined[n + 1..];
    assert forall j :: 0 <= j < n ==> defined[1..n + 1][j] == Variable(b.counters[j], 1);
    assert v in defined[1..n + 1] <==> v.size == 1 && v.name in b.counters;
  }

  lemma {:induction false} DefinedByEvents(vs: VariablesMap, events: seq<(string, EventSpec)>, v: Variable)
    ensures var b := WithEvents(EMPTY_BOOK, vs, events);
            (v.size == 1 && v.name in b.counters) || v in b.windows <==>
            exists k :: 0 <= k < |events| && Needs(vs, events[k].0, events[k].1, v)
  {
    if events != [] {
      var before := events[..|events| - 1];
      var (name, spec) := events[|events| - 1];
      DefinedByEvents(vs, before, v);
      DefinedStep(WithEvents(EMPTY_BOOK, vs, before), vs, name, spec, v);
      assert events == before + [(name, spec)];
    }
  }

  lemma {:induction false} DefinedStep(b: Book, vs: VariablesMap, name: string, spec: EventSpec, v: Variable)
    ensures var c := WithEvent(b, vs, name, spec);
            (v.size == 1 && v.name in c.counters) || v in c.windows <==>
            (v.size == 1 && v.name in b.counters) || v in b.windows || Needs(vs, name, spec, v)
  {
  }
}
