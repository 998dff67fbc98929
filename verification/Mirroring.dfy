/** The code generator of pyaseba/client/node/mirroring.py: for every local event to be mirrored it writes
    a handler that emits a user event, for every function to be exposed a handler that calls it. */
module Mirroring {
  import opened Layout
  import opened AsebaCode
  import opened Int16Cells
  import opened Options

  datatype EventSpec = EventSpec(variables: seq<string>, useCounter: bool, externalCounter: string, window: int)

  datatype Handler = Handler(event: string, body: seq<Statement>)

  /** What the generator has built so far. */
  datatype Book = Book(
    codeEvents: map<string, nat>,
    events: map<string, string>,
    userEvents: map<string, string>,
    eventsVariables: map<string, seq<Variable>>,
    counters: seq<string>,
    windows: seq<Variable>,
    functions: map<string, string>,
    code: seq<Handler>)

  const EMPTY_BOOK := Book(map[], map[], map[], map[], [], [], map[], [])

  function EventName(name: string): string { "event_" + name }
  function FunctionName(name: string): string { "call_" + name }
  function PayloadName(name: string): string { name + "_payload" }
  function WindowName(name: string): string { name + "_window" }

  predicate Known(vs: VariablesMap, spec: EventSpec) {
    forall n :: n in spec.variables ==> n in vs
  }

  /** The variables of a list of names, with their sizes. */
  function Selected(vs: VariablesMap, names: seq<string>): (r: seq<Variable>)
    ensures |r| == |names|
    ensures forall k :: 0 <= k < |names| ==>
            r[k].name == names[k] && (names[k] in vs ==> r[k].size == vs[names[k]].size)
  {
    seq(|names|, k requires 0 <= k < |names| => Variable(names[k], if names[k] in vs then vs[names[k]].size else 0))
  }

  function MessageSize(vs: VariablesMap, spec: EventSpec): nat {
    TotalSize(Selected(vs, spec.variables)) + if spec.useCounter then 1 else 0
  }

  predicate OwnCounter(spec: EventSpec) {
    spec.useCounter && spec.externalCounter == ""
  }

  /** What is put into the payload: the variables in order, then the counter. */
  function Parts(name: string, spec: EventSpec): seq<string> {
    spec.variables + if !spec.useCounter then [] else if OwnCounter(spec) then [EventName(name)]
      else [spec.externalCounter]
  }

  predicate Windowed(spec: EventSpec) {
    spec.window > 1 && spec.variables != []
  }

  function Count(name: string, spec: EventSpec): seq<Statement> {
    if OwnCounter(spec) then [Increment(EventName(name))] else []
  }

  function PlainBody(name: string, spec: EventSpec): seq<Statement> {
    [Emit(EventName(name), if spec.variables == [] then [] else Parts(name, spec))] + Count(name, spec)
  }

  function WindowBody(name: string, spec: EventSpec, size: nat): seq<Statement> {
    [Add(PayloadName(name), Parts(name, spec))] + Count(name, spec) + Turn(name, spec, size)
  }

  function Turn(name: string, spec: EventSpec, size: nat): seq<Statement> {
    [Increment(WindowName(name)),
     WhenEqual(WindowName(name), spec.window, Publish(name, if spec.window > 0 then spec.window else 1, size))]
  }

  function Publish(name: string, window: nat, size: nat): seq<Statement> {
    [DivideCells(PayloadName(name), size, window),
     Zero(WindowName(name)),
     Emit(EventName(name), [PayloadName(name)]),
     Fill(PayloadName(name), 0)]
  }

  function Body(vs: VariablesMap, name: string, spec: EventSpec): seq<Statement> {
    if Windowed(spec) then WindowBody(name, spec, MessageSize(vs, spec)) else PlainBody(name, spec)
  }

  /** The slices of the buffer that hold arguments of these sizes, from cell i on. */
  function Slices(sizes: seq<nat>, i: nat): seq<Slice> {
    if sizes == [] then [] else [Slice(i, i + sizes[0] - 1)] + Slices(sizes[1..], i + sizes[0])
  }

  function FunctionBody(id: string, buffer: string, name: string, sizes: seq<nat>): seq<Statement> {
    [WhenSame(id, buffer, 0, [Call(name, buffer, Slices(sizes, 1))])]
  }

  function Sum(sizes: seq<nat>): nat {
    if sizes == [] then 0 else sizes[0] + Sum(sizes[1..])
  }

  function WithEvent(b: Book, vs: VariablesMap, name: string, spec: EventSpec): Book {
    if spec.window <= 0 || !Known(vs, spec) then b
    else
      Book(
        b.codeEvents[EventName(name) := MessageSize(vs, spec)],
        b.events[EventName(name) := name],
        b.userEvents[name := EventName(name)],
        b.eventsVariables[EventName(name) := Selected(vs, spec.variables)],
        b.counters + (if OwnCounter(spec) then [EventName(name)] else []) +
          (if Windowed(spec) then [WindowName(name)] else []),
        b.windows + (if Windowed(spec) then [Variable(PayloadName(name), MessageSize(vs, spec))] else []),
        b.functions,
        b.code + [Handler(name, Body(vs, name, spec))])
  }

  function WithFunction(b: Book, id: string, buffer: string, name: string, sizes: seq<nat>): Book {
    b.(codeEvents := b.codeEvents[FunctionName(name) := Sum(sizes)],
       functions := b.functions[name := FunctionName(name)],
       code := b.code + [Handler(FunctionName(name), FunctionBody(id, buffer, name, sizes))])
  }

  function WithEvents(b: Book, vs: VariablesMap, events: seq<(string, EventSpec)>): Book {
    if events == [] then b
    else
      var n := |events| - 1;
      WithEvent(WithEvents(b, vs, events[..n]), vs, events[n].0, events[n].1)
  }

  function WithFunctions(b: Book, id: string, buffer: string, functions: seq<(string, seq<nat>)>): Book {
    if functions == [] then b
    else
      var n := |functions| - 1;
      WithFunction(WithFunctions(b, id, buffer, functions[..n]), id, buffer, functions[n].0, functions[n].1)
  }

  /** The variables the script defines for the handlers, and how it sets them to zero. */
  function Definitions(b: Book): seq<Variable> {
    [Variable("temp", 1)] + seq(|b.counters|, k requires 0 <= k < |b.counters| => Variable(b.counters[k], 1)) +
      b.windows
  }

  function Inits(b: Book): seq<Statement> {
    seq(|b.counters|, k requires 0 <= k < |b.counters| => Zero(b.counters[k])) +
    seq(|b.windows|, k requires 0 <= k < |b.windows| => Fill(b.windows[k].name, 0))
  }

  /** The name of the variable at an address; the last one found, if there are several. */
  ghost predicate IsAt(vs: VariablesMap, index: nat, name: string) {
    if exists n :: n in vs && vs[n].index == index then name in vs && vs[name].index == index else name == ""
  }

  /** Of a node with distinct variables this is the one that begins there. */
  lemma {:induction false} IsAtIff(vs: seq<Variable>, k: nat, name: string)
    ensures DistinctNames(vs) && PositiveSizes(vs) && k < |vs| ==>
            (IsAt(VariablesMapOf(vs), Offset(vs, k), name) <==> name == vs[k].name)
  {
    if DistinctNames(vs) && PositiveSizes(vs) && k < |vs| {
      TableIsPrefixSums(vs, |vs|, k);
      if name in VariablesMapOf(vs) && VariablesMapOf(vs)[name].index == Offset(vs, k) {
        TableNames(vs, |vs|, name);
        var j: nat :| j < |vs| && vs[j].name == name;
        TableIsPrefixSums(vs, |vs|, j);
        if j < k { DisjointVariables(vs, j, k); } else if k < j { DisjointVariables(vs, k, j); }
      }
    }
  }

  function PiecesUpTo(data: seq<int>, variables: seq<Variable>, n: nat): map<string, seq<int>>
    requires n <= |variables|
  {
    if n == 0 then map[]
    else PiecesUpTo(data, variables,
      n - 1)[variables[n - 1].name := Clip(data, Offset(variables, n - 1), Offset(variables, n))]
  }

  /** Consecutive pieces of a payload. */
  function Pieces(data: seq<int>, variables: seq<Variable>): map<string, seq<int>> {
    PiecesUpTo(data, variables, |variables|)
  }

  /** Python's data[i:j] for 0 <= i <= j. */
  function Clip(data: seq<int>, i: nat, j: nat): seq<int>
    requires i <= j
  {
    var from, to := if i < |data| then i else |data|, if j < |data| then j else |data|;
    data[from..to]
  }

  /** pyaseba/client/node/utils.py. */
  function Int16(x: int): int {
    if x > 32768 then x - 65536 else x
  }

  /** The payload of a call; none if the bindings refuse to convert it. */
  function CallData(nodeId: int, args: seq<int>): (r: Option<seq<int>>)
    ensures r.Some? <==> IsInt16(Int16(nodeId)) && AllInt16(args)
    ensures r.Some? ==> r.value == [Int16(nodeId)] + args && AllInt16(r.value)
  {
    var data := [Int16(nodeId)] + args;
    assert forall k :: 0 <= k < |args| ==> data[k + 1] == args[k];
    if AllInt16(data) then
      assert IsInt16(data[0]);
      Some(data)
    else None
  }

  /** What comes of a call: nothing, an exception, or a user event. */
  datatype CallOutcome = NotExposed | Refused | Sent(event: string, data: seq<int>)

  class Generator {
    const variables: VariablesMap
    var codeEvents: map<string, nat>
    var events: map<string, string>
    var userEvents: map<string, string>
    var eventsVariables: map<string, seq<Variable>>
    var counters: seq<string>
    var windows: seq<Variable>
    var functions: map<string, string>
    var code: seq<Handler>
    var idName: string
    var bufferName: string
    var definitions: seq<Variable>
    var inits: seq<Statement>

    function Snapshot(): Book
      reads this
    {
      Book(codeEvents, events, userEvents, eventsVariables, counters, windows, functions, code)
    }

    /** The functions passed in are those selected by the configuration. */
    constructor (variables: VariablesMap, configured: seq<(string, EventSpec)>, exposed: seq<(string, seq<nat>)>)
      requires forall k :: 0 <= k < |configured| ==> configured[k].1.window > 0 ==> Known(variables, configured[k].1)
      ensures this.variables == variables
      ensures IsAt(variables, 0, idName)
      ensures IsAt(variables, 2, bufferName)
      ensures Snapshot() == WithFunctions(WithEvents(EMPTY_BOOK, variables, configured), idName, bufferName, exposed)
      ensures definitions == Definitions(Snapshot())
      ensures inits == Inits(Snapshot())
    {
      this.variables := variables;
      codeEvents, events, userEvents, eventsVariables, counters, windows, functions, code :=
        map[], map[], map[], map[], [], [], map[], [];
      idName, bufferName, definitions, inits := "", "", [], [];
      new;
      FindNames();
      AddEvents(configured);
      AddFunctions(exposed);
      AddDefinitions();
    }

    /** The lines before the handlers. */
    method AddDefinitions()
      modifies this`definitions, this`inits
      ensures definitions == Definitions(Snapshot())
      ensures inits == Inits(Snapshot())
    {
      definitions, inits := [Variable("temp", 1)], [];
      for k := 0 to |counters|
        invariant |definitions| == k + 1 && definitions[0] == Variable("temp", 1) && |inits| == k
        invariant forall j :: 0 <= j < k ==>
                  definitions[j + 1] == Variable(counters[j], 1) && inits[j] == Zero(counters[j])
      {
        definitions := definitions + [Variable(counters[k], 1)];
        inits := inits + [Zero(counters[k])];
      }
      ghost var defined, zeroed := definitions, inits;
      for k := 0 to |windows|
        invariant definitions == defined + windows[..k]
        invariant |inits| == |zeroed| + k && inits[..|zeroed|] == zeroed
        invariant forall j :: 0 <= j < k ==> inits[|zeroed| + j] == Fill(windows[j].name, 0)
      {
        definitions := definitions + [windows[k]];
        inits := inits + [Fill(windows[k].name, 0)];
      }
      assert windows[..|windows|] == windows;
    }

    method AddEvents(configured: seq<(string, EventSpec)>)
      modifies this
      ensures idName == old(idName)
      ensures bufferName == old(bufferName)
      ensures Snapshot() == WithEvents(old(Snapshot()), variables, configured)
    {
      for k := 0 to |configured|
        invariant idName == old(idName) && bufferName == old(bufferName)
        invariant Snapshot() == WithEvents(old(Snapshot()), variables, configured[..k])
      {
        assert configured[..k + 1][..k] == configured[..k];
        var ok := AddEvent(configured[k].0, configured[k].1);
      }
      assert configured[..|configured|] == configured;
    }

    method AddFunctions(exposed: seq<(string, seq<nat>)>)
      modifies this`code, this`functions, this`codeEvents
      ensures Snapshot() == WithFunctions(old(Snapshot()), idName, bufferName, exposed)
    {
      for k := 0 to |exposed|
        invariant Snapshot() == WithFunctions(old(Snapshot()), idName, bufferName, exposed[..k])
      {
        assert exposed[..k + 1][..k] == exposed[..k];
        AddFunction(exposed[k].0, exposed[k].1);
      }
      assert exposed[..|exposed|] == exposed;
    }

    method FindNames()
      requires idName == "" && bufferName == ""
      modifies this`idName, this`bufferName
      ensures IsAt(variables, 0, idName)
      ensures IsAt(variables, 2, bufferName)
    {
      var rest := variables.Keys;
      while rest != {}
        invariant rest <= variables.Keys
        invariant if exists n :: n in variables && n !in rest && variables[n].index == 0
                  then idName in variables && variables[idName].index == 0 else idName == ""
        invariant if exists n :: n in variables && n !in rest && variables[n].index == 2
                  then bufferName in variables && variables[bufferName].index == 2 else bufferName == ""
        decreases rest
      {
        var name :| name in rest;
        if variables[name].index == 0 {
          idName := name;
        }
        if variables[name].index == 2 {
          bufferName := name;
        }
        rest := rest - {name};
      }
    }

    /** A variable that the node does not have is a KeyError, raised before anything has changed. */
    method AddEvent(name: string, spec: EventSpec) returns (ok: bool)
      modifies this
      ensures idName == old(idName)
      ensures bufferName == old(bufferName)
      ensures ok <==> spec.window <= 0 || Known(variables, spec)
      ensures Snapshot() == WithEvent(old(Snapshot()), variables, name, spec)
    {
      if spec.window <= 0 {
        return true;
      }
      var selected, messageSize, known := Select(spec.variables);
      if !known {
        return false;
      }
      var eventName, counter, parts := EventName(name), "", spec.variables;
      if spec.useCounter {
        messageSize := messageSize + 1;
        if spec.externalCounter != "" {
          parts := parts + [spec.externalCounter];
        } else {
          counter := eventName;
          parts := parts + [counter];
          counters := counters + [counter];
        }
      }
      assert parts == Parts(name, spec) && messageSize == MessageSize(variables, spec);
      var body := HandlerBody(name, spec, messageSize, parts, counter);
      if spec.window > 1 && spec.variables != [] {
        windows := windows + [Variable(PayloadName(name), messageSize)];
        counters := counters + [WindowName(name)];
      }
      Enter(name, selected, messageSize, body);
      ok := true;
      assert counters == old(counters) + (if OwnCounter(spec) then [EventName(name)] else []) +
             (if Windowed(spec) then [WindowName(name)] else []);
      assert windows == old(windows) + (if Windowed(spec) then [Variable(PayloadName(name), messageSize)] else []);
    }

    /** The entries of an event. */
    method Enter(name: string, selected: seq<Variable>, messageSize: nat, body: seq<Statement>)
      modifies this`code, this`events, this`userEvents, this`eventsVariables, this`codeEvents
      ensures code == old(code) + [Handler(name, body)]
      ensures events == old(events)[EventName(name) := name]
      ensures userEvents == old(userEvents)[name := EventName(name)]
      ensures eventsVariables == old(eventsVariables)[EventName(name) := selected]
      ensures codeEvents == old(codeEvents)[EventName(name) := messageSize]
    {
      var eventName := EventName(name);
      code := code + [Handler(name, body)];
      events := events[eventName := name];
      userEvents := userEvents[name := eventName];
      eventsVariables := eventsVariables[eventName := selected];
      codeEvents := codeEvents[eventName := messageSize];
    }

    /** The code of a handler. */
    method HandlerBody(name: string, spec: EventSpec, size: nat, parts: seq<string>, counter: string)
        returns (body: seq<Statement>)
      requires spec.window > 0 && parts == Parts(name, spec) && counter == if OwnCounter(spec) then EventName(name)
               else ""
      ensures body == if Windowed(spec) then WindowBody(name, spec, size) else PlainBody(name, spec)
    {
      var eventName := EventName(name);
      var counterCode := if counter != "" then [Increment(counter)] else [];
      assert eventName[0] == 'e' && counterCode == Count(name, spec);
      if spec.window == 1 || spec.variables == [] {
        body := [Emit(eventName, if spec.variables == [] then [] else parts)] + counterCode;
      } else {
        var payload, window := PayloadName(name), WindowName(name);
        body := [Add(payload, parts)] + counterCode + [
          Increment(window),
          WhenEqual(window, spec.window, [
            DivideCells(payload, size, spec.window),
            Zero(window),
            Emit(eventName, [payload]),
            Fill(payload, 0)])];
      }
    }

    method Select(names: seq<string>) returns (selected: seq<Variable>, size: nat, known: bool)
      ensures known <==> forall n :: n in names ==> n in variables
      ensures known ==> selected == Selected(variables, names) && size == TotalSize(selected)
    {
      selected, size := [], 0;
      for k := 0 to |names|
        invariant forall j :: 0 <= j < k ==> names[j] in variables
        invariant selected == Selected(variables, names[..k]) && size == TotalSize(selected)
      {
        if names[k] !in variables {
          return [], 0, false;
        }
        var v := Variable(names[k], variables[names[k]].size);
        PrefixAgrees(selected, selected + [v], |selected|);
        selected := selected + [v];
        size := size + v.size;
      }
      assert names[..|names|] == names;
      known := true;
    }

    method AddFunction(name: string, argumentSizes: seq<nat>)
      modifies this`code, this`functions, this`codeEvents
      ensures Snapshot() == WithFunction(old(Snapshot()), idName, bufferName, name, argumentSizes)
    {
      var eventName, arguments: seq<Slice> := FunctionName(name), [];
      var i: int, messageSize: int := 1, 0;
      for k := 0 to |argumentSizes|
        invariant messageSize >= 0 && i == 1 + messageSize
        invariant arguments + Slices(argumentSizes[k..], i) == Slices(argumentSizes, 1)
        invariant messageSize + Sum(argumentSizes[k..]) == Sum(argumentSizes)
      {
        var size := argumentSizes[k];
        assert argumentSizes[k..][1..] == argumentSizes[k + 1..];
        assert Slices(argumentSizes[k..], i) == [Slice(i, i + size - 1)] + Slices(argumentSizes[k + 1..], i + size);
        arguments := arguments + [Slice(i, i + size - 1)];
        i := i + size;
        messageSize := messageSize + size;
      }
      assert argumentSizes[|argumentSizes|..] == [] && arguments + [] == arguments;
      code := code + [Handler(eventName, [WhenSame(idName, bufferName, 0, [Call(name, bufferName, arguments)])])];
      functions := functions[name := eventName];
      codeEvents := codeEvents[eventName := messageSize];
    }

    /** Node.call: a user event with the id and the arguments, if the function is exposed and all of them can
        be converted to int16. */
    method CallEvent(name: string, nodeId: int, args: seq<int>) returns (r: CallOutcome)
      ensures r.NotExposed? <==> name !in functions || functions[name] == ""
      ensures r.Refused? ==> !IsInt16(Int16(nodeId)) || !AllInt16(args)
      ensures r.Sent? ==> r.event == functions[name] && AllInt16(r.data)
      ensures r.Sent? ==> |r.data| == 1 + |args| && r.data[0] == Int16(nodeId) && r.data[1..] == args
    {
      var event := if name in functions then functions[name] else "";
      if event == "" {
        return NotExposed;
      }
      var data := CallData(nodeId, args);
      r := if data.Some? then Sent(event, data.value) else Refused;
    }

    method ReadVariables(event: string, data: seq<int>) returns (rs: map<string, seq<int>>)
      ensures rs == if event in eventsVariables then Pieces(data, eventsVariables[event]) else map[]
    {
      if event !in eventsVariables {
        return map[];
      }
      var i, vs := 0, eventsVariables[event];
      rs := map[];
      for k := 0 to |vs|
        invariant i == Offset(vs, k)
        invariant rs == PiecesUpTo(data, vs, k)
      {
        rs := rs[vs[k].name := Clip(data, i, i + vs[k].size)];
        i := i + vs[k].size;
      }
    }
  }
}
