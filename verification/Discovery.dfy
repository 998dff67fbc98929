/** What a client knows about one remote node: the specification of src/client/description_manager.h.

    A signal is anything that can change the entry of one (connection, node id) pair. `Step` says what
    one signal does to it. The theorems below are about every list of signals. */
module Discovery {
  import opened Layout
  import opened Options

  datatype LocalEvent = LocalEvent(name: string, description: string)

  datatype NativeFunction = NativeFunction(name: string, description: string, parameters: seq<Variable>)

  /** The Description message: how many fragments of each kind will follow. */
  datatype Header = Header(version: nat, variables: nat, events: nat, functions: nat)

  datatype Body =
    | NodePresent
    | Description(header: Header)
    | NamedVariable(variable: Variable)
    | EventFragment(event: LocalEvent)
    | FunctionFragment(function_: NativeFunction)
    | Disconnected
    | Other

  datatype Config = Config(query: bool, minVersion: nat, maxVersion: nat, timeout: nat)

  datatype Signal =
    | Message(body: Body, now: nat)
    | Ping(now: nat)
    | Close(notify: bool)
    | Reset(notify: bool)
    | Configure(config: Config)

  /** What the client is told, or asked to send, about the node. Silenced is nobody being told:
      it marks a `disconnect` or `reset` without notification in a trail. */
  datatype Notice = Queried | DescriptionReceived | NodeConnected | NodeDisconnected | Silenced

  /** A vector resized to the declared length and filled from the front. */
  datatype Slots<T> = Slots(items: seq<T>, received: nat)

  datatype NodeState = NodeState(
    version: nat,
    namedVariables: Slots<Variable>,
    localEvents: Slots<LocalEvent>,
    nativeFunctions: Slots<NativeFunction>,
    connected: bool,
    complete: bool,
    lastSeen: nat,
    variables: VariablesMap,
    eventTable: map<string, string>,
    functionTable: map<string, NativeFunction>)

  datatype LocalState = LocalState(config: Config, node: Option<NodeState>, ignored: bool)

  const BLANK_VARIABLE := Variable("", 0)
  const BLANK_EVENT := LocalEvent("", "")
  const BLANK_FUNCTION := NativeFunction("", "", [])

  function Blanks<T>(n: nat, blank: T): (r: seq<T>)
    ensures |r| == n
    ensures forall k :: 0 <= k < n ==> r[k] == blank
  {
    seq(n, _ => blank)
  }

  predicate Full<T>(s: Slots<T>) {
    s.received == |s.items|
  }

  function Receive<T>(s: Slots<T>, x: T): Slots<T> {
    if s.received < |s.items| then Slots(s.items[s.received := x], s.received + 1) else s
  }

  predicate AllFull(n: NodeState) {
    Full(n.namedVariables) && Full(n.localEvents) && Full(n.nativeFunctions)
  }

  function FreshNode(h: Header, now: nat): NodeState {
    var n := NodeState(
      h.version,
      Slots(Blanks(h.variables, BLANK_VARIABLE), 0),
      Slots(Blanks(h.events, BLANK_EVENT), 0),
      Slots(Blanks(h.functions, BLANK_FUNCTION), 0),
      false, false, now, map[], map[], map[]);
    n.(complete := AllFull(n))
  }

  /** The three `ClientNode::update` overloads for fragments. */
  function Update(n: NodeState, body: Body): NodeState {
    match body
    case NamedVariable(v) =>
      if n.namedVariables.received >= |n.namedVariables.items| then n else
        var m := n.(namedVariables := Receive(n.namedVariables, v));
        var m := if Full(m.namedVariables) then m.(variables := VariablesMapOf(m.namedVariables.items)) else m;
        m.(complete := AllFull(m))
    case EventFragment(e) =>
      if n.localEvents.received >= |n.localEvents.items| then n else
        var table := if e.name in n.eventTable then n.eventTable else n.eventTable[e.name := e.description];
        var m := n.(localEvents := Receive(n.localEvents, e), eventTable := table);
        m.(complete := AllFull(m))
    case FunctionFragment(f) =>
      if n.nativeFunctions.received >= |n.nativeFunctions.items| then n else
        var m := n.(nativeFunctions := Receive(n.nativeFunctions, f), functionTable := n.functionTable[f.name := f]);
        m.(complete := AllFull(m))
    case _ => n
  }

  predicate Accepts(c: Config, h: Header) {
    c.minVersion <= h.version <= c.maxVersion
  }

  /** A message other than Disconnected reaching a known node. */
  function Deliver(node: NodeState, body: Body, now: nat): (NodeState, seq<Notice>) {
    var n := node.(lastSeen := now);
    if n.complete then
      (n.(connected := true), if n.connected then [] else [NodeConnected])
    else
      var m := Update(n, body);
      if m.complete then (m.(connected := true), [DescriptionReceived, NodeConnected]) else (m, [])
  }

  /** The first half of `process_message`: is the message for a node we know, or have just admitted? */
  function Admit(s: LocalState, body: Body, now: nat): (LocalState, seq<Notice>, bool) {
    if s.node.None? && s.ignored then (s, [], false)
    else if body.Description? && !Accepts(s.config, body.header) then (s.(ignored := true), [], false)
    else if s.node.Some? then (s, [], true)
    else if body.Description? then (s.(node := Some(FreshNode(body.header, now))), [], true)
    else (s, if body.NodePresent? && s.config.query then [Queried] else [], false)
  }

  /** `process_message` for the pair the message comes from. */
  function StepMessage(s: LocalState, body: Body, now: nat): (LocalState, seq<Notice>) {
    var (admitted, notices, known) := Admit(s, body, now);
    if !known || admitted.node.None? then (admitted, notices)
    else if body.Disconnected? then (admitted.(node := None), [NodeDisconnected])
    else
      var (n, notices) := Deliver(admitted.node.value, body, now);
      (admitted.(node := Some(n)), notices)
  }

  /** The difference of two times is unsigned: a message handled after the ping has taken its time counts as
      overdue. */
  predicate Overdue(c: Config, seen: nat, now: nat) {
    now < seen || now - seen > c.timeout
  }

  /** Connected, supports listing, and not heard of for longer than the timeout. */
  predicate Silent(c: Config, n: NodeState, now: nat) {
    n.connected && c.timeout > 0 && n.version >= 5 && Overdue(c, n.lastSeen, now)
  }

  function Dropped(n: NodeState): NodeState {
    n.(connected := false)
  }

  function Step(s: LocalState, signal: Signal): (LocalState, seq<Notice>) {
    match signal
    case Message(body, now) => StepMessage(s, body, now)
    case Ping(now) =>
      if s.node.Some? && Silent(s.config, s.node.value, now)
        then (s.(node := Some(Dropped(s.node.value))), [NodeDisconnected])
      else (s, [])
    case Close(notify) =>
      if s.node.Some? && s.node.value.connected
      then (s.(node := Some(Dropped(s.node.value))), if notify then [NodeDisconnected] else [])
      else (s, [])
    case Reset(notify) =>
      (s.(node := None, ignored := false),
       if notify && s.node.Some? && s.node.value.connected then [NodeDisconnected] else [])
    case Configure(c) => (s.(config := c), [])
  }

  function Initial(c: Config): LocalState {
    LocalState(c, None, false)
  }

  function Run(c: Config, signals: seq<Signal>): LocalState {
    if signals == [] then Initial(c)
    else Step(Run(c, signals[..|signals| - 1]), signals[|signals| - 1]).0
  }

  /** The notices of a whole run, in order. */
  function Calls(c: Config, signals: seq<Signal>): seq<Notice> {
    if signals == [] then []
    else
      var n := |signals| - 1;
      Calls(c, signals[..n]) + Step(Run(c, signals[..n]), signals[n]).1
  }

  // ---------------------------------------------------------------- reassembly

  /** A plain record of what has been received about a node since it was admitted. */
  datatype Record = Unknown | Admitted(header: Header, fragments: seq<Body>, seen: nat)

  datatype History = History(config: Config, record: Record, ignored: bool)

  function Remember(h: History, signal: Signal): History {
    match signal
    case Message(body, now) =>
      (match h.record
       case Unknown =>
         if h.ignored || !body.Description? then h
         else if Accepts(h.config, body.header) then h.(record := Admitted(body.header, [], now))
         else h.(ignored := true)
       case Admitted(header, fragments, _) =>
         if body.Description? && !Accepts(h.config, body.header) then h.(ignored := true)
         else if body.Disconnected? then h.(record := Unknown)
         else h.(record := Admitted(header, fragments + [body], now)))
    case Reset(_) => h.(record := Unknown, ignored := false)
    case Configure(c) => h.(config := c)
    case Ping(_) => h
    case Close(_) => h
  }

  function Recall(c: Config, signals: seq<Signal>): History {
    if signals == [] then History(c, Unknown, false)
    else Remember(Recall(c, signals[..|signals| - 1]), signals[|signals| - 1])
  }

  function Variables(bs: seq<Body>): seq<Variable> {
    if bs == [] then []
    else Variables(bs[..|bs| - 1]) + (var b := bs[|bs| - 1]; if b.NamedVariable? then [b.variable] else [])
  }

  function Events(bs: seq<Body>): seq<LocalEvent> {
    if bs == [] then []
    else Events(bs[..|bs| - 1]) + (var b := bs[|bs| - 1]; if b.EventFragment? then [b.event] else [])
  }

  function Functions(bs: seq<Body>): seq<NativeFunction> {
    if bs == [] then []
    else Functions(bs[..|bs| - 1]) + (var b := bs[|bs| - 1]; if b.FunctionFragment? then [b.function_] else [])
  }

  /** The first `declared` of the items received, the rest of the slots blank. */
  function Filled<T>(declared: nat, xs: seq<T>, blank: T): (s: Slots<T>)
    ensures |s.items| == declared && s.received <= declared
  {
    if |xs| >= declared then Slots(xs[..declared], declared)
    else Slots(xs + Blanks(declared - |xs|, blank), |xs|)
  }

  function FirstWins(es: seq<LocalEvent>): map<string, string> {
    if es == [] then map[]
    else
      var e := es[|es| - 1];
      var table := FirstWins(es[..|es| - 1]);
      if e.name in table then table else table[e.name := e.description]
  }

  function LastWins(fs: seq<NativeFunction>): map<string, NativeFunction> {
    if fs == [] then map[]
    else LastWins(fs[..|fs| - 1])[fs[|fs| - 1].name := fs[|fs| - 1]]
  }

  function Clip<T>(n: nat, xs: seq<T>): seq<T> {
    if |xs| >= n then xs[..n] else xs
  }

  /** A node from its header and the three streams of fragments, computed in one go. */
  function Build(
    h: Header, vs: seq<Variable>, es: seq<LocalEvent>, fs: seq<NativeFunction>, seen: nat, connected: bool): NodeState
  {
    NodeState(
      h.version,
      Filled(h.variables, vs, BLANK_VARIABLE),
      Filled(h.events, es, BLANK_EVENT),
      Filled(h.functions, fs, BLANK_FUNCTION),
      connected,
      |vs| >= h.variables && |es| >= h.events && |fs| >= h.functions,
      seen,
      if 0 < h.variables <= |vs| then VariablesMapOf(vs[..h.variables]) else map[],
      FirstWins(Clip(h.events, es)),
      LastWins(Clip(h.functions, fs)))
  }

  /** The node described by a header and all the fragments received after it. */
  function Assemble(h: Header, bs: seq<Body>, seen: nat, connected: bool): NodeState {
    Build(h, Variables(bs), Events(bs), Functions(bs), seen, connected)
  }

  lemma ReceiveFilled<T>(declared: nat, xs: seq<T>, x: T, blank: T)
    ensures Filled(declared, xs + [x], blank) == Receive(Filled(declared, xs, blank), x)
  {
  }

  lemma ClipStep<T>(n: nat, xs: seq<T>, x: T)
    ensures Clip(n, xs + [x]) == if |xs| < n then Clip(n, xs) + [x] else Clip(n, xs)
  {
  }

  lemma {:induction false} StreamsStep(bs: seq<Body>, b: Body)
    ensures Variables(bs + [b]) == if b.NamedVariable? then Variables(bs) + [b.variable] else Variables(bs)
    ensures Events(bs + [b]) == if b.EventFragment? then Events(bs) + [b.event] else Events(bs)
    ensures Functions(bs + [b]) == if b.FunctionFragment? then Functions(bs) + [b.function_] else Functions(bs)
  {
  }

  lemma {:induction false} BuildVariable(
    h: Header, vs: seq<Variable>, es: seq<LocalEvent>, fs: seq<NativeFunction>, seen: nat, connected: bool, v: Variable)
    ensures Build(h, vs + [v], es, fs, seen, connected)
         == Update(Build(h, vs, es, fs, seen, connected), NamedVariable(v))
  {
    ReceiveFilled(h.variables, vs, v, BLANK_VARIABLE);
    if |vs| + 1 > h.variables { assert (vs + [v])[..h.variables] == vs[..h.variables]; }
  }

  lemma {:induction false} BuildEvent(
    h: Header, vs: seq<Variable>, es: seq<LocalEvent>, fs: seq<NativeFunction>, seen: nat, connected: bool,
    e: LocalEvent)
    ensures Build(h, vs, es + [e], fs, seen, connected)
         == Update(Build(h, vs, es, fs, seen, connected), EventFragment(e))
  {
    ReceiveFilled(h.events, es, e, BLANK_EVENT);
    ClipStep(h.events, es, e);
    if |es| < h.events { assert (es + [e])[..|es|] == es; }
  }

  lemma {:induction false} BuildFunction(
    h: Header, vs: seq<Variable>, es: seq<LocalEvent>, fs: seq<NativeFunction>, seen: nat, connected: bool,
    f: NativeFunction)
    ensures Build(h, vs, es, fs + [f], seen, connected)
         == Update(Build(h, vs, es, fs, seen, connected), FunctionFragment(f))
  {
    ReceiveFilled(h.functions, fs, f, BLANK_FUNCTION);
    ClipStep(h.functions, fs, f);
    if |fs| < h.functions { assert (fs + [f])[..|fs|] == fs; }
  }

  /** One more fragment: updating in place is the same as assembling again from scratch. */
  lemma {:induction false} AssembleStep(h: Header, bs: seq<Body>, b: Body, seen: nat, connected: bool)
    ensures Assemble(h, bs + [b], seen, connected) == Update(Assemble(h, bs, seen, connected), b)
  {
    StreamsStep(bs, b);
    var vs, es, fs := Variables(bs), Events(bs), Functions(bs);
    match b {
      case NamedVariable(v) => BuildVariable(h, vs, es, fs, seen, connected, v);
      case EventFragment(e) => BuildEvent(h, vs, es, fs, seen, connected, e);
      case FunctionFragment(f) => BuildFunction(h, vs, es, fs, seen, connected, f);
      case _ =>
    }
  }

  lemma CompleteIsFinal(h: Header, bs: seq<Body>, b: Body, seen: nat, connected: bool)
    requires Assemble(h, bs, seen, connected).complete
    ensures Assemble(h, bs + [b], seen, connected) == Assemble(h, bs, seen, connected)
  {
    AssembleStep(h, bs, b, seen, connected);
  }

  ghost predicate Agrees(s: LocalState, h: History) {
    && s.config == h.config && s.ignored == h.ignored
    && (s.node.Some? <==> h.record.Admitted?)
    && (s.node.Some? ==>
          s.node.value == Assemble(h.record.header, h.record.fragments, h.record.seen, s.node.value.connected))
    && (s.node.Some? && s.node.value.connected ==> s.node.value.complete)
  }

  lemma AgreesAdmission(s: LocalState, h: History, header: Header, now: nat)
    requires Agrees(s, h) && h.record.Unknown? && !h.ignored && Accepts(h.config, header)
    ensures Agrees(StepMessage(s, Description(header), now).0, h.(record := Admitted(header, [], now)))
  {
  }

  lemma AgreesFragment(s: LocalState, h: History, body: Body, now: nat)
    requires Agrees(s, h) && h.record.Admitted? && !body.Disconnected?
    requires body.Description? ==> Accepts(h.config, body.header)
    ensures Agrees(StepMessage(s, body, now).0, Remember(h, Message(body, now)))
  {
    var header, bs := h.record.header, h.record.fragments;
    var n := s.node.value.(lastSeen := now);
    assert n == Assemble(header, bs, now, n.connected);
    AgreesDelivery(header, bs, body, now, n.connected);
    assert Remember(h, Message(body, now)) == h.(record := Admitted(header, bs + [body], now));
    assert StepMessage(s, body, now).0 == s.(node := Some(Deliver(s.node.value, body, now).0));
  }

  lemma {:induction false} AgreesDelivery(header: Header, bs: seq<Body>, body: Body, now: nat, connected: bool)
    requires connected ==> Assemble(header, bs, now, connected).complete
    ensures var m := Deliver(Assemble(header, bs, now, connected), body, now).0;
            m == Assemble(header, bs + [body], now, m.connected) && (m.connected ==> m.complete)
  {
    AssembleStep(header, bs, body, now, connected);
    var n := Assemble(header, bs, now, connected);
    assert n.complete ==> Update(n, body) == n;
  }

  lemma AgreesStep(s: LocalState, h: History, signal: Signal)
    requires Agrees(s, h)
    ensures Agrees(Step(s, signal).0, Remember(h, signal))
  {
    if signal.Message? {
      var body := signal.body;
      if h.record.Unknown? {
        if !h.ignored && body.Description? && Accepts(h.config, body.header) {
          AgreesAdmission(s, h, body.header, signal.now);
        }
      } else if !body.Disconnected? && (body.Description? ==> Accepts(h.config, body.header)) {
        AgreesFragment(s, h, body, signal.now);
      }
    }
  }

  /** Reassembly over any trace: whatever the interleaving, a known node is what its header and the
      fragments received since then describe; a connected node is complete; `lastSeen` is the time of
      the latest message. */
  lemma {:induction false} Reassembly(c: Config, signals: seq<Signal>)
    ensures Agrees(Run(c, signals), Recall(c, signals))
  {
    if signals != [] {
      var n := |signals| - 1;
      Reassembly(c, signals[..n]);
      AgreesStep(Run(c, signals[..n]), Recall(c, signals[..n]), signals[n]);
    }
  }

  function SlotOr<T>(xs: seq<T>, k: nat, blank: T): T {
    if k < |xs| then xs[k] else blank
  }

  /** Slot by slot: the first c variables are the first c variable fragments received since the node was
      admitted, c being the smaller of their number and the declared one, and the other slots are blank;
      the node is complete exactly when all three streams have delivered what was declared. */
  lemma ReassemblyBySlot(c: Config, signals: seq<Signal>)
    requires Run(c, signals).node.Some?
    ensures var n, r := Run(c, signals).node.value, Recall(c, signals).record;
            && r.Admitted? && n.version == r.header.version
            && |n.namedVariables.items| == r.header.variables
            && |n.localEvents.items| == r.header.events
            && |n.nativeFunctions.items| == r.header.functions
            && (forall k :: 0 <= k < r.header.variables ==>
                  n.namedVariables.items[k] == SlotOr(Variables(r.fragments), k, BLANK_VARIABLE))
            && (forall k :: 0 <= k < r.header.events ==>
                  n.localEvents.items[k] == SlotOr(Events(r.fragments), k, BLANK_EVENT))
            && (forall k :: 0 <= k < r.header.functions ==>
                  n.nativeFunctions.items[k] == SlotOr(Functions(r.fragments), k, BLANK_FUNCTION))
            && (n.complete <==>
                  && |Variables(r.fragments)| >= r.header.variables
                  && |Events(r.fragments)| >= r.header.events
                  && |Functions(r.fragments)| >= r.header.functions)
            && (n.connected ==> n.complete)
  {
    Reassembly(c, signals);
  }

  ghost predicate EndsLifetime(signal: Signal) {
    signal.Reset? || (signal.Message? && signal.body.Disconnected?)
  }

  lemma CompleteStep(s: LocalState, signal: Signal)
    requires s.node.Some? && s.node.value.complete && !EndsLifetime(signal)
    ensures Step(s, signal).0.node.Some?
    ensures var n, m := s.node.value, Step(s, signal).0.node.value;
            m == n.(connected := m.connected, lastSeen := m.lastSeen)
  {
  }

  /** Once complete, nothing short of the end of its lifetime changes what a node has been told,
      and it stays complete. */
  lemma {:induction false} CompleteNeverReverts(c: Config, signals: seq<Signal>, more: seq<Signal>)
    requires Run(c, signals).node.Some? && Run(c, signals).node.value.complete
    requires forall k :: 0 <= k < |more| ==> !EndsLifetime(more[k])
    ensures Run(c, signals + more).node.Some?
    ensures var n, m := Run(c, signals).node.value, Run(c, signals + more).node.value;
            m == n.(connected := m.connected, lastSeen := m.lastSeen) && m.complete
  {
    if more == [] {
      assert signals + more == signals;
    } else {
      var k := |more| - 1;
      CompleteNeverReverts(c, signals, more[..k]);
      assert (signals + more)[..|signals + more| - 1] == signals + more[..k];
      assert (signals + more)[|signals + more| - 1] == more[k];
      CompleteStep(Run(c, signals + more[..k]), more[k]);
    }
  }

  // ---------------------------------------------------------------- notifications

  function Silence(signal: Signal): seq<Notice> {
    if (signal.Close? || signal.Reset?) && !signal.notify then [Silenced] else []
  }

  /** The notices of a run, with a mark wherever a connection may have been dropped without one. */
  function Trail(c: Config, signals: seq<Signal>): seq<Notice> {
    if signals == [] then []
    else
      var n := |signals| - 1;
      Trail(c, signals[..n]) + Step(Run(c, signals[..n]), signals[n]).1 + Silence(signals[n])
  }

  /** Does somebody who listened to the trail believe that the node is connected? */
  predicate Announced(trail: seq<Notice>) {
    if trail == [] then false
    else
      match trail[|trail| - 1]
      case NodeConnected => true
      case NodeDisconnected => false
      case Silenced => false
      case _ => Announced(trail[..|trail| - 1])
  }

  ghost predicate IsConnected(s: LocalState) {
    s.node.Some? && s.node.value.connected
  }

  lemma AnnouncedAppend(trail: seq<Notice>, notice: Notice)
    ensures Announced(trail + [notice]) ==
            if notice.NodeConnected? then true
            else if notice.NodeDisconnected? || notice.Silenced? then false
            else Announced(trail)
  {
  }

  /** One step says either nothing, or a connection of a node that was not connected, or a disconnection;
      and keeps "connected implies complete". */
  lemma StepSays(s: LocalState, signal: Signal)
    requires IsConnected(s) ==> s.node.value.complete
    ensures var (t, calls) := Step(s, signal);
            || (calls in {[], [Queried]} && (IsConnected(t) == IsConnected(s)
              || (!IsConnected(t) && Silence(signal) != [])))
            || (calls == [NodeDisconnected] && !IsConnected(t) && (IsConnected(s) || signal.Message?))
            || (calls in {[NodeConnected], [DescriptionReceived, NodeConnected]} && !IsConnected(s) && IsConnected(t))
    ensures Silence(signal) != [] ==> !IsConnected(Step(s, signal).0)
    ensures IsConnected(Step(s, signal).0) ==> Step(s, signal).0.node.value.complete
  {
  }

  lemma AnnouncedStep(s: LocalState, signal: Signal, trail: seq<Notice>)
    requires Announced(trail) == IsConnected(s)
    requires IsConnected(s) ==> s.node.value.complete
    ensures Announced(trail + Step(s, signal).1 + Silence(signal)) == IsConnected(Step(s, signal).0)
  {
    var (t, calls) := Step(s, signal);
    StepSays(s, signal);
    assert Announced(trail + calls) == IsConnected(t) || Silence(signal) != [] by {
      if calls == [] {
        assert trail + calls == trail;
      } else {
        AnnouncedAppend(trail, calls[0]);
        if |calls| == 2 {
          AnnouncedAppend(trail + [calls[0]], calls[1]);
          assert trail + calls == trail + [calls[0]] + [calls[1]];
        }
      }
    }
    assert trail + calls + [] == trail + calls;
    AnnouncedAppend(trail + calls, Silenced);
  }

  /** In every reachable state a node is connected exactly when the trail says so. */
  lemma {:induction false} TrailTellsConnection(c: Config, signals: seq<Signal>)
    ensures Announced(Trail(c, signals)) == IsConnected(Run(c, signals))
  {
    if signals != [] {
      var n := |signals| - 1;
      TrailTellsConnection(c, signals[..n]);
      Reassembly(c, signals[..n]);
      AnnouncedStep(Run(c, signals[..n]), signals[n], Trail(c, signals[..n]));
    }
  }

  /** `node_connected` is only ever called for a node not announced as connected. */
  lemma {:induction false} ConnectedOnlyWhenUnannounced(c: Config, signals: seq<Signal>, k: nat)
    requires k < |Trail(c, signals)| && Trail(c, signals)[k].NodeConnected?
    ensures !Announced(Trail(c, signals)[..k])
  {
    var n := |signals| - 1;
    var before := Trail(c, signals[..n]);
    var calls := Step(Run(c, signals[..n]), signals[n]).1;
    if k < |before| {
      ConnectedOnlyWhenUnannounced(c, signals[..n], k);
      assert Trail(c, signals)[..k] == before[..k];
    } else {
      TrailTellsConnection(c, signals[..n]);
      Reassembly(c, signals[..n]);
      StepSays(Run(c, signals[..n]), signals[n]);
      var i := k - |before|;
      assert Trail(c, signals)[k] == (calls + Silence(signals[n]))[i];
      assert Trail(c, signals)[..k] == before + calls[..i];
      if i == 0 {
        assert before + calls[..i] == before;
      } else {
        assert calls[..i] == [DescriptionReceived];
        AnnouncedAppend(before, DescriptionReceived);
      }
    }
  }

  lemma {:induction false} AnnouncedUntilDropped(trail: seq<Notice>, j: nat, k: nat)
    requires j < k <= |trail| && trail[j].NodeConnected?
    requires forall i :: j < i < k ==> !trail[i].NodeDisconnected? && !trail[i].Silenced?
    ensures Announced(trail[..k])
  {
    assert trail[..k][..k - 1] == trail[..k - 1];
    if j < k - 1 {
      AnnouncedUntilDropped(trail, j, k - 1);
    }
  }

  /** Between two `node_connected` for the same node there is a `node_disconnected`, or a `disconnect`
      or `reset` that was asked not to notify. */
  lemma NotificationsAlternate(c: Config, signals: seq<Signal>, j: nat, k: nat)
    requires j < k < |Trail(c, signals)|
    requires Trail(c, signals)[j].NodeConnected? && Trail(c, signals)[k].NodeConnected?
    ensures exists i :: j < i < k && (Trail(c, signals)[i].NodeDisconnected? || Trail(c, signals)[i].Silenced?)
  {
    ConnectedOnlyWhenUnannounced(c, signals, k);
    if forall i :: j < i < k ==> !Trail(c, signals)[i].NodeDisconnected? && !Trail(c, signals)[i].Silenced? {
      AnnouncedUntilDropped(Trail(c, signals), j, k);
    }
  }

  /** The trail holds a `node_connected` that nothing has taken back since. */
  ghost predicate Matched(trail: seq<Notice>) {
    exists j :: 0 <= j < |trail| && trail[j].NodeConnected?
                && forall i :: j < i < |trail| ==> !trail[i].NodeDisconnected? && !trail[i].Silenced?
  }

  lemma {:induction false} AnnouncedIsMatched(trail: seq<Notice>)
    requires Announced(trail)
    ensures Matched(trail)
  {
    var n := |trail| - 1;
    if !trail[n].NodeConnected? {
      AnnouncedIsMatched(trail[..n]);
      var j :| 0 <= j < n && trail[..n][j].NodeConnected?
               && forall i :: j < i < n ==> !trail[..n][i].NodeDisconnected? && !trail[..n][i].Silenced?;
      assert trail[j].NodeConnected?;
      assert forall i :: j < i < n ==> trail[..n][i] == trail[i];
    }
  }

  lemma {:induction false} MatchedIffAnnounced(trail: seq<Notice>)
    ensures Matched(trail) <==> Announced(trail)
  {
    if Matched(trail) {
      var j :| 0 <= j < |trail| && trail[j].NodeConnected?
               && forall i :: j < i < |trail| ==> !trail[i].NodeDisconnected? && !trail[i].Silenced?;
      AnnouncedUntilDropped(trail, j, |trail|);
      assert trail[..|trail|] == trail;
    }
    if Announced(trail) { AnnouncedIsMatched(trail); }
  }

  /** A timeout, a closed stream or a reset reports a disconnection only for a node whose last
      notification was `node_connected`. (A Disconnected message may report a node never connected.) */
  lemma DisconnectionIsMatched(c: Config, signals: seq<Signal>, signal: Signal)
    requires !signal.Message? && NodeDisconnected in Step(Run(c, signals), signal).1
    ensures Matched(Trail(c, signals))
  {
    TrailTellsConnection(c, signals);
    MatchedIffAnnounced(Trail(c, signals));
  }

  /** The report of a Disconnected message belongs to an earlier `node_connected` exactly if the node is
      connected when the message arrives. */
  lemma {:induction false} DisconnectedMatchedIff(c: Config, signals: seq<Signal>, now: nat)
    requires Step(Run(c, signals), Message(Disconnected, now)).1 == [NodeDisconnected]
    ensures Matched(Trail(c, signals)) <==> IsConnected(Run(c, signals))
  {
    TrailTellsConnection(c, signals);
    MatchedIffAnnounced(Trail(c, signals));
  }

  /** A Disconnected message reports a node that was never connected. */
  lemma UnmatchedDisconnection(h: Header)
    requires h.variables > 0
    ensures var c := Config(true, h.version, h.version, 0);
            Trail(c, [Message(Description(h), 0), Message(Disconnected, 1)]) == [NodeDisconnected]
  {
    var c := Config(true, h.version, h.version, 0);
    var signals := [Message(Description(h), 0), Message(Disconnected, 1)];
    var first := [Message(Description(h), 0)];
    assert signals[..1] == first;
    assert first[..0] == [];
    assert Trail(c, first) == [];
    assert !FreshNode(h, 0).complete;
  }

  /** After a ping with the timeout enabled, a node that supports listing is connected exactly when it
      was before and its latest message is recent enough, and not later than the time the ping has taken. */
  lemma PingLeavesRecent(c: Config, signals: seq<Signal>, now: nat)
    requires IsConnected(Run(c, signals))
    requires Run(c, signals).config.timeout > 0 && Run(c, signals).node.value.version >= 5
    ensures var s, h := Run(c, signals), Recall(c, signals);
            h.record.Admitted? && (IsConnected(Step(s, Ping(now)).0) <==>
              h.record.seen <= now <= h.record.seen + s.config.timeout)
  {
    Reassembly(c, signals);
  }

  // ---------------------------------------------------------------- what a node goes through

  /** All the fragments that the header announces have been received. */
  ghost predicate Told(r: Record) {
    && r.Admitted?
    && |Variables(r.fragments)| >= r.header.variables
    && |Events(r.fragments)| >= r.header.events
    && |Functions(r.fragments)| >= r.header.functions
  }

  /** A version that the configuration admits. */
  ghost predicate InRange(c: Config, body: Body) {
    body.Description? ==> c.minVersion <= body.header.version <= c.maxVersion
  }

  /** A message delivered to a node described by a header and fragments connects it exactly if they tell all with the
      new one added; the client is told of the completion and of the connection, each exactly when it happens. */
  lemma {:induction false} DeliverySays(h: Header, bs: seq<Body>, body: Body, seen: nat, connected: bool, now: nat)
    ensures var (m, notices) := Deliver(Assemble(h, bs, seen, connected), body, now);
            var (told, tells) := (Told(Admitted(h, bs, seen)), Told(Admitted(h, bs + [body], now)));
            && (connected ==> told) ==>
              && (m.connected <==> tells)
              && notices == (if tells && !told then [DescriptionReceived] else [])
                          + (if tells && !connected then [NodeConnected] else [])
  {
    var n := Assemble(h, bs, seen, connected);
    var m := Deliver(n, body, now).0;
    assert n.(lastSeen := now) == Assemble(h, bs, now, connected);
    AssembleStep(h, bs, body, now, connected);
    TellsMore(h, bs, body, seen, now);
    CompleteIsTold(h, bs, seen, connected);
    CompleteIsTold(h, bs + [body], now, connected);
    if !n.complete {
      assert m == (var u := Update(n.(lastSeen := now), body); if u.complete then u.(connected := true) else u);
    }
  }

  lemma CompleteIsTold(h: Header, bs: seq<Body>, seen: nat, connected: bool)
    ensures Assemble(h, bs, seen, connected).complete == Told(Admitted(h, bs, seen))
  {
  }

  lemma {:induction false} TellsMore(h: Header, bs: seq<Body>, body: Body, seen: nat, now: nat)
    ensures Told(Admitted(h, bs, seen)) ==> Told(Admitted(h, bs + [body], now))
  {
    StreamsStep(bs, body);
  }

  /** Every message that a known node sends, other than a refused description or the last one of all, connects it
      exactly if it has been told everything by then. The client is told of the description by the message that
      completes it, and of the connection whenever there was none. */
  lemma {:induction false} MessageConnectsIff(c: Config, signals: seq<Signal>, body: Body, now: nat)
    ensures var s, before := Run(c, signals), Recall(c, signals);
            var after := Remember(before, Message(body, now)).record;
            var (t, notices) := Step(s, Message(body, now));
            !body.Disconnected? && InRange(s.config, body) && after.Admitted? ==>
              && (IsConnected(t) <==> Told(after))
              && notices == (if before.record.Admitted? && Told(after) && !Told(before.record)
                             then [DescriptionReceived] else [])
                          + (if Told(after) && !IsConnected(s) then [NodeConnected] else [])
  {
    Reassembly(c, signals);
    var s, r := Run(c, signals), Recall(c, signals).record;
    if r.Admitted? {
      DeliverySays(r.header, r.fragments, body, r.seen, s.node.value.connected, now);
    } else if body.Description? && InRange(s.config, body) && !s.ignored {
      var fresh_ := FreshNode(body.header, now);
      assert Deliver(fresh_, body, now).0.connected == fresh_.complete == Told(Admitted(body.header, [], now));
    }
  }

  /** A ping finds the last message of a node that supports listing too old, or later than the time it has taken. */
  ghost predicate Forgotten(h: History, signal: Signal) {
    && signal.Ping? && h.record.Admitted? && h.config.timeout > 0 && h.record.header.version >= 5
    && (signal.now < h.record.seen || signal.now - h.record.seen > h.config.timeout)
  }

  /** A ping drops and reports a node exactly if it is connected, timeouts are checked, it supports listing, and its
      last message is too old, or later than the time the ping has taken; otherwise nothing happens. */
  lemma {:induction false} PingDropsIff(c: Config, signals: seq<Signal>, now: nat)
    ensures var s, h := Run(c, signals), Recall(c, signals);
            Step(s, Ping(now)) ==
            if IsConnected(s) && Forgotten(h, Ping(now))
            then (s.(node := Some(s.node.value.(connected := false))), [NodeDisconnected]) else (s, [])
  {
    Reassembly(c, signals);
  }

  /** A connection ends exactly with a Disconnected message, a closed stream, a reset, or such a ping. The end is
      reported by the ping, by the others if they are to notify; a Disconnected message reports every known node. */
  lemma {:induction false} ConnectionEndsIff(c: Config, signals: seq<Signal>, signal: Signal)
    ensures var s, h := Run(c, signals), Recall(c, signals);
            var (t, notices) := Step(s, signal);
            && (IsConnected(s) ==> (!IsConnected(t) <==>
                  EndsLifetime(signal) || signal.Close? || Forgotten(h, signal)))
            && (NodeDisconnected in notices <==>
                  if signal.Message? then signal.body.Disconnected? && h.record.Admitted?
                  else IsConnected(s) && (Forgotten(h, signal) || ((signal.Close? || signal.Reset?) && signal.notify)))
  {
    Reassembly(c, signals);
  }

  /** A query is the answer to a NodePresent from a node that is neither known nor ignored, and to nothing else. */
  lemma {:induction false} QueriedIff(c: Config, signals: seq<Signal>, signal: Signal)
    ensures var h := Recall(c, signals);
            Queried in Step(Run(c, signals), signal).1 <==>
            signal.Message? && signal.body.NodePresent? && h.config.query && h.record.Unknown? && !h.ignored
  {
    Reassembly(c, signals);
  }

  /** A description arrives whose version the configuration of the moment does not admit. */
  ghost predicate RefusedAt(c: Config, signals: seq<Signal>, k: nat) {
    k < |signals| && signals[k].Message? && !InRange(Run(c, signals[..k]).config, signals[k].body)
  }

  /** A node is ignored exactly if one of its descriptions has been refused since the last reset. */
  lemma {:induction false} IgnoredIff(c: Config, signals: seq<Signal>)
    ensures Run(c, signals).ignored <==>
            exists k: nat :: RefusedAt(c, signals, k) && forall j :: k < j < |signals| ==> !signals[j].Reset?
  {
    if signals != [] {
      var n := |signals| - 1;
      var before := signals[..n];
      IgnoredIff(c, before);
      assert forall k :: 0 <= k <= n ==> before[..k] == signals[..k];
      assert forall k: nat :: k < n ==> (RefusedAt(c, before, k) <==> RefusedAt(c, signals, k));
      if RefusedAt(c, signals, n) {
        assert Run(c, signals).ignored;
      } else if signals[n].Reset? {
        assert !Run(c, signals).ignored;
      } else {
        assert Run(c, signals).ignored == Run(c, before).ignored;
        if k: nat :| RefusedAt(c, before, k) && forall j :: k < j < n ==> !before[j].Reset? {
          assert forall j :: k < j < |signals| ==> !signals[j].Reset?;
        }
        if k: nat :| RefusedAt(c, signals, k) && forall j :: k < j < |signals| ==> !signals[j].Reset? {
          assert forall j :: k < j < n ==> !before[j].Reset?;
        }
      }
    }
  }

  /** A description arrives that is admitted, from a node that is not ignored. */
  ghost predicate AdmittedAt(c: Config, signals: seq<Signal>, k: nat) {
    && k < |signals| && signals[k].Message? && signals[k].body.Description?
    && InRange(Run(c, signals[..k]).config, signals[k].body)
    && !Run(c, signals[..k]).ignored
  }

  ghost predicate KnownSince(c: Config, signals: seq<Signal>, k: nat) {
    AdmittedAt(c, signals, k) && forall j :: k < j < |signals| ==> !EndsLifetime(signals[j])
  }

  lemma {:induction false} KnownSinceStep(c: Config, signals: seq<Signal>, k: nat)
    requires k < |signals| - 1
    ensures var n := |signals| - 1;
            KnownSince(c, signals, k) <==> KnownSince(c, signals[..n], k) && !EndsLifetime(signals[n])
  {
    var n := |signals| - 1;
    var before := signals[..n];
    assert before[..k] == signals[..k];
    assert forall j :: k < j < n ==> before[j] == signals[j];
  }

  lemma KnownStep(s: LocalState, signal: Signal)
    ensures Step(s, signal).0.node.Some? <==>
            || (s.node.Some? && !EndsLifetime(signal))
            || (signal.Message? && signal.body.Description? && InRange(s.config, signal.body) && !s.ignored)
  {
  }

  /** A node is known exactly if a description of it has been admitted and its entry not been ended since. */
  lemma {:induction false} KnownIff(c: Config, signals: seq<Signal>)
    ensures Run(c, signals).node.Some? <==> exists k: nat :: KnownSince(c, signals, k)
  {
    if signals != [] {
      var n := |signals| - 1;
      KnownIff(c, signals[..n]);
      KnownStep(Run(c, signals[..n]), signals[n]);
      forall k: nat | k < n
        ensures KnownSince(c, signals, k) <==> KnownSince(c, signals[..n], k) && !EndsLifetime(signals[n])
      {
        KnownSinceStep(c, signals, k);
      }
      assert KnownSince(c, signals, n) <==> AdmittedAt(c, signals, n);
    }
  }
}
