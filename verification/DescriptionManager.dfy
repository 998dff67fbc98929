/** The objects of src/client/description_manager.h, proved against the specification in Discovery. */
module DescriptionManager {
  import opened Layout
  import opened Discovery
  import opened Options
  import opened Selection

  datatype NamedValue = NamedValue(name: string, value: int)

  /** The fields that the reception of a description fills are kept together in one record; the tables
      derived from them, and those of the loaded script, stand beside it. */
  class ClientNode {
    var state: NodeState
    var variablesByIndex: map<nat, Variable>
    var variablesSize: nat
    var eventIndices: map<string, nat>
    var events: map<string, int>
    /** The user events loaded last. */
    ghost var userEvents: seq<NamedValue>

    /** The index and the size always belong to the current table of variables, and the tables of user events
        to the list loaded last. */
    ghost predicate TablesValid()
      reads this
    {
      && IsIndexOf(variablesByIndex, state.variables)
      && variablesSize == TableSize(state.variables)
      && eventIndices == IndicesOf(userEvents)
      && events == ValuesOf(userEvents)
    }

    constructor (h: Header, now: nat)
      ensures state == FreshNode(h, now)
      ensures userEvents == []
      ensures TablesValid()
    {
      var fresh_ := NodeState(
        h.version,
        Slots(Blanks(h.variables, BLANK_VARIABLE), 0),
        Slots(Blanks(h.events, BLANK_EVENT), 0),
        Slots(Blanks(h.functions, BLANK_FUNCTION), 0),
        false, false, now, map[], map[], map[]);
      state := fresh_.(complete := h.variables == 0 && h.events == 0 && h.functions == 0);
      variablesByIndex, variablesSize := map[], 0;
      eventIndices, events, userEvents := map[], map[], [];
    }

    method UpdateVariable(v: Variable)
      modifies this`state, this`variablesSize, this`variablesByIndex
      ensures state == Update(old(state), NamedVariable(v))
      ensures old(TablesValid()) ==> TablesValid()
    {
      var slots := state.namedVariables;
      if slots.received < |slots.items| {
        slots := Slots(slots.items[slots.received := v], slots.received + 1);
        state := state.(namedVariables := slots);
        if slots.received == |slots.items| {
          UpdateTable(VariablesMapOf(slots.items));
        }
        state := state.(complete := AllFull(state));
      }
    }

    method UpdateEvent(e: LocalEvent)
      modifies this`state
      ensures state == Update(old(state), EventFragment(e))
    {
      var slots := state.localEvents;
      if slots.received < |slots.items| {
        slots := Slots(slots.items[slots.received := e], slots.received + 1);
        state := state.(localEvents := slots);
        if e.name !in state.eventTable {
          state := state.(eventTable := state.eventTable[e.name := e.description]);
        }
        state := state.(complete := AllFull(state));
      }
    }

    method UpdateFunction(f: NativeFunction)
      modifies this`state
      ensures state == Update(old(state), FunctionFragment(f))
    {
      var slots := state.nativeFunctions;
      if slots.received < |slots.items| {
        slots := Slots(slots.items[slots.received := f], slots.received + 1);
        state := state.(nativeFunctions := slots, functionTable := state.functionTable[f.name := f]);
        state := state.(complete := AllFull(state));
      }
    }

    method UpdateFrom(body: Body)
      modifies this`state, this`variablesSize, this`variablesByIndex
      ensures state == Update(old(state), body)
      ensures old(TablesValid()) ==> TablesValid()
    {
      match body {
        case NamedVariable(v) => UpdateVariable(v);
        case EventFragment(e) => UpdateEvent(e);
        case FunctionFragment(f) => UpdateFunction(f);
        case _ =>
      }
    }

    /** A message other than Disconnected: what the client is to be told. */
    method Handle(body: Body, now: nat) returns (notices: seq<Notice>)
      modifies this`state, this`variablesSize, this`variablesByIndex
      ensures (state, notices) == Deliver(old(state), body, now)
      ensures old(TablesValid()) ==> TablesValid()
    {
      state := state.(lastSeen := now);
      notices := [];
      if state.complete {
        if !state.connected {
          state := state.(connected := true);
          notices := [NodeConnected];
        }
        return;
      }
      UpdateFrom(body);
      if state.complete {
        state := state.(connected := true);
        notices := [DescriptionReceived, NodeConnected];
      }
    }

    /** The variables of a description, or those of a compiled script. */
    method UpdateTable(table: VariablesMap)
      modifies this`state, this`variablesSize, this`variablesByIndex
      ensures state == old(state).(variables := table)
      ensures IsIndexOf(variablesByIndex, table)
      ensures variablesSize == TableSize(table)
      ensures old(TablesValid()) ==> TablesValid()
    {
      state := state.(variables := table);
      variablesSize := ComputeVariablesSize(table);
      variablesByIndex := BuildIndex(table);
    }

    /** The user events of a script; an event number is a position in the list. */
    method UpdateUserEvents(named: seq<NamedValue>)
      modifies this`eventIndices, this`events, this`userEvents
      ensures userEvents == named
      ensures eventIndices == IndicesOf(named)
      ensures events == ValuesOf(named)
      ensures old(TablesValid()) ==> TablesValid()
    {
      eventIndices, events, userEvents := map[], map[], named;
      for i := 0 to |named|
        invariant userEvents == named && eventIndices == IndicesOf(named[..i]) && events == ValuesOf(named[..i])
      {
        assert named[..i + 1][..i] == named[..i];
        eventIndices := eventIndices[named[i].name := i];
        events := events[named[i].name := named[i].value];
      }
      assert named[..|named|] == named;
    }

    /** The name of the event at a position of the list; the empty name beyond its end, and where the name
        occurs again later. */
    method GetEventName(index: nat) returns (name: string)
      requires TablesValid()
      ensures name == if index < |userEvents| && IsLast(userEvents, index) then userEvents[index].name else ""
    {
      if index < |userEvents| && IsLast(userEvents, index) { EventNumbers(userEvents, userEvents[index].name, index); }
      var rest := eventIndices.Keys;
      while rest != {}
        invariant rest <= eventIndices.Keys
        invariant forall n :: n in eventIndices.Keys - rest ==> eventIndices[n] != index
        decreases rest
      {
        var n :| n in rest;
        if eventIndices[n] == index {
          EventNumbers(userEvents, n, index);
          return n;
        }
        rest := rest - {n};
      }
      return "";
    }

    /** The last position of a name in the list; -1 if it does not occur. */
    method GetEventIndex(name: string) returns (index: int)
      requires TablesValid()
      ensures index == -1 <==> forall j :: 0 <= j < |userEvents| ==> userEvents[j].name != name
      ensures index != -1 ==> 0 <= index < |userEvents| && userEvents[index].name == name && IsLast(userEvents, index)
    {
      index := if name in eventIndices then eventIndices[name] else -1;
      if name in eventIndices {
        EventNumbers(userEvents, name, eventIndices[name]);
      } else {
        UnknownEvent(userEvents, name);
      }
    }

    /** Of a description with distinct variables that have cells, the index holds exactly these variables at their
        places, and the size is that of all of them; an event has the value that its name has last in the list. */
    lemma TablesAreExact(vs: seq<Variable>, name: string, value: int)
      requires TablesValid() && state.variables == VariablesMapOf(vs) && DistinctNames(vs) && PositiveSizes(vs)
      ensures variablesByIndex == IndexOf(vs)
      ensures variablesSize == TotalSize(vs)
      ensures name in events && events[name] == value <==>
              exists i :: 0 <= i < |userEvents| && userEvents[i] == NamedValue(name, value) && IsLast(userEvents, i)
    {
      IndexIsExact(vs, variablesByIndex);
      TableSizeTotal(vs, |vs|);
      EventValues(userEvents, name, value);
    }
  }

  /** The name at a position does not occur again. */
  ghost predicate IsLast(named: seq<NamedValue>, i: nat)
    requires i < |named|
  {
    forall j :: i < j < |named| ==> named[j].name != named[i].name
  }

  lemma {:induction false} UnknownEvent(named: seq<NamedValue>, name: string)
    requires name !in IndicesOf(named)
    ensures forall j :: 0 <= j < |named| ==> named[j].name != name
  {
    if named != [] { UnknownEvent(named[..|named| - 1], name); }
  }

  function IndicesOf(named: seq<NamedValue>): map<string, nat> {
    if named == [] then map[]
    else IndicesOf(named[..|named| - 1])[named[|named| - 1].name := |named| - 1]
  }

  function ValuesOf(named: seq<NamedValue>): map<string, int> {
    if named == [] then map[]
    else ValuesOf(named[..|named| - 1])[named[|named| - 1].name := named[|named| - 1].value]
  }

  /** An event's number is the last position its name has in the list; so numbers and names of the events
      are inverse to each other, and a position whose name occurs again later has no name. */
  lemma {:induction false} EventNumbers(named: seq<NamedValue>, name: string, i: nat)
    ensures name in IndicesOf(named) && IndicesOf(named)[name] == i <==>
            && i < |named| && named[i].name == name
            && forall j :: i < j < |named| ==> named[j].name != name
  {
    if named != [] {
      var n := |named| - 1;
      EventNumbers(named[..n], name, i);
    }
  }

  /** The value of an event is the one its name has last in the list. */
  lemma {:induction false} EventValues(named: seq<NamedValue>, name: string, value: int)
    ensures name in ValuesOf(named) && ValuesOf(named)[name] == value <==>
            exists i :: 0 <= i < |named| && named[i] == NamedValue(name, value) && IsLast(named, i)
  {
    if named != [] {
      var n := |named| - 1;
      var before := named[..n];
      EventValues(before, name, value);
      if named[n].name == name {
        assert IsLast(named, n);
      } else {
        if i :| 0 <= i < n && before[i] == NamedValue(name, value) && IsLast(before, i) { assert IsLast(named, i); }
        if i :| 0 <= i < |named| && named[i] == NamedValue(name, value) && IsLast(named, i) {
          assert before[i] == named[i] && forall j :: i < j < n ==> before[j] == named[j];
          assert IsLast(before, i);
        }
      }
    }
  }

  /** A node id on a connection. */
  datatype Key = Key(target: nat, id: nat)

  datatype Call =
    | Notify(key: Key, notice: Notice)
    | ListNodes
    | GetDescription

  /** What has been reported, or sent, about one node. */
  function Heard(calls: seq<Call>, key: Key): seq<Notice> {
    if calls == [] then []
    else
      var call := calls[|calls| - 1];
      Heard(calls[..|calls| - 1], key) + if call.Notify? && call.key == key then [call.notice] else []
  }

  function Broadcasts(calls: seq<Call>): seq<Call> {
    if calls == [] then []
    else
      var call := calls[|calls| - 1];
      Broadcasts(calls[..|calls| - 1]) + if call.Notify? then [] else [call]
  }

  lemma HeardAppend(calls: seq<Call>, call: Call, key: Key)
    ensures Heard(calls + [call], key) ==
            Heard(calls, key) + if call.Notify? && call.key == key then [call.notice] else []
    ensures Broadcasts(calls + [call]) == Broadcasts(calls) + if call.Notify? then [] else [call]
  {
  }

  // ---------------------------------------------------------------- all nodes at once

  /** Everything that can happen to a manager. */
  datatype Event =
    | Incoming(key: Key, body: Body, now: nat)
    | PingAll(now: nat)
    | CloseTarget(target: nat, notify: bool)
    | ResetNodes(notify: bool)
    | Reconfigure(config: Config)

  /** A manager as a value. */
  datatype Snapshot = Snapshot(config: Config, views: map<Key, NodeState>, ignored: set<Key>)

  function Entry(s: Snapshot, key: Key): LocalState {
    LocalState(s.config, if key in s.views then Some(s.views[key]) else None, key in s.ignored)
  }

  function DropNotices(n: NodeState, notify: bool): seq<Notice> {
    if n.connected && notify then [NodeDisconnected] else []
  }

  function AllDropped(views: map<Key, NodeState>, keys: set<Key>): map<Key, NodeState> {
    map k | k in views :: if k in keys then Dropped(views[k]) else views[k]
  }

  function Pinged(c: Config, views: map<Key, NodeState>, keys: set<Key>, now: nat): map<Key, NodeState> {
    map k | k in views :: if k in keys && Silent(c, views[k], now) then Dropped(views[k]) else views[k]
  }

  function OnTarget(views: map<Key, NodeState>, target: nat): set<Key> {
    set k | k in views && k.target == target
  }

  function Replaced(s: Snapshot, key: Key, l: LocalState): Snapshot {
    Snapshot(
      s.config,
      if l.node.Some? then s.views[key := l.node.value] else s.views - {key},
      if l.ignored then s.ignored + {key} else s.ignored - {key})
  }

  function Apply(s: Snapshot, e: Event): Snapshot {
    match e
    case Incoming(key, body, now) => Replaced(s, key, StepMessage(Entry(s, key), body, now).0)
    case PingAll(now) => s.(views := Pinged(s.config, s.views, s.views.Keys, now))
    case CloseTarget(target, _) => s.(views := AllDropped(s.views, OnTarget(s.views, target)))
    case ResetNodes(_) => Snapshot(s.config, map[], {})
    case Reconfigure(c) => s.(config := c)
  }

  /** What is said about one node. Between nodes the order of the notices is left open. */
  function Says(s: Snapshot, e: Event, key: Key): seq<Notice> {
    match e
    case Incoming(k, body, now) => if k == key then StepMessage(Entry(s, key), body, now).1 else []
    case PingAll(now) => if key in s.views && Silent(s.config, s.views[key], now) then [NodeDisconnected] else []
    case CloseTarget(target, notify) =>
      if key in s.views && key.target == target then DropNotices(s.views[key], notify) else []
    case ResetNodes(notify) => if key in s.views then DropNotices(s.views[key], notify) else []
    case Reconfigure(_) => []
  }

  /** The signal an event is for one node, if it concerns it at all. */
  function Project(e: Event, key: Key): seq<Signal> {
    match e
    case Incoming(k, body, now) => if k == key then [Message(body, now)] else []
    case PingAll(now) => [Ping(now)]
    case CloseTarget(target, notify) => if key.target == target then [Close(notify)] else []
    case ResetNodes(notify) => [Reset(notify)]
    case Reconfigure(c) => [Configure(c)]
  }

  /** Nodes do not interfere: an event changes the entry of a node as the node's own signal does, and not
      at all when it is about other nodes. */
  lemma Projection(s: Snapshot, e: Event, key: Key)
    ensures Project(e, key) == [] ==> Entry(Apply(s, e), key) == Entry(s, key) && Says(s, e, key) == []
    ensures Project(e, key) != [] ==>
              && Project(e, key) == [Project(e, key)[0]]
              && (Entry(Apply(s, e), key), Says(s, e, key)) == Step(Entry(s, key), Project(e, key)[0])
  {
  }

  function After(c: Config, events: seq<Event>): Snapshot {
    if events == [] then Snapshot(c, map[], {})
    else Apply(After(c, events[..|events| - 1]), events[|events| - 1])
  }

  function SaysAll(c: Config, events: seq<Event>, key: Key): seq<Notice> {
    if events == [] then []
    else
      var n := |events| - 1;
      SaysAll(c, events[..n], key) + Says(After(c, events[..n]), events[n], key)
  }

  function ProjectAll(events: seq<Event>, key: Key): seq<Signal> {
    if events == [] then []
    else ProjectAll(events[..|events| - 1], key) + Project(events[|events| - 1], key)
  }

  /** For every interleaving of messages from any nodes on any connections, pings, closures and resets,
      each node behaves as if it were alone with its own signals: all that is proved about single nodes in
      Discovery (reassembly, completeness, notifications, timeouts) holds for each of them. */
  lemma {:induction false} EveryNodeRunsAlone(c: Config, events: seq<Event>, key: Key)
    ensures Entry(After(c, events), key) == Run(c, ProjectAll(events, key))
    ensures SaysAll(c, events, key) == Calls(c, ProjectAll(events, key))
  {
    if events != [] {
      var n := |events| - 1;
      var before := ProjectAll(events[..n], key);
      EveryNodeRunsAlone(c, events[..n], key);
      Projection(After(c, events[..n]), events[n], key);
      if Project(events[n], key) != [] {
        var signal := Project(events[n], key)[0];
        assert ProjectAll(events, key) == before + [signal];
        assert (before + [signal])[..|before|] == before;
      } else {
        assert ProjectAll(events, key) == before;
      }
    }
  }

  ghost predicate AnyConnected(views: map<Key, NodeState>) {
    exists k :: k in views && views[k].connected
  }

  lemma PingedConnected(c: Config, views: map<Key, NodeState>, now: nat)
    ensures AnyConnected(Pinged(c, views, views.Keys, now)) <==>
            exists k :: k in views && views[k].connected && !Silent(c, views[k], now)
  {
    if k :| k in views && views[k].connected && !Silent(c, views[k], now) {
      var after := Pinged(c, views, views.Keys, now);
      assert k in after && after[k].connected;
    }
  }

  lemma AllDroppedStep(views: map<Key, NodeState>, keys: set<Key>, key: Key)
    requires key in views && key !in keys
    ensures AllDropped(views, keys + {key}) == AllDropped(views, keys)[key := Dropped(views[key])]
    ensures AllDropped(views, keys)[key] == views[key]
  {
  }

  lemma PingedStep(c: Config, views: map<Key, NodeState>, keys: set<Key>, key: Key, now: nat)
    requires key in views && key !in keys
    ensures Pinged(c, views, keys + {key}, now) ==
            Pinged(c, views, keys, now)[key := if Silent(c, views[key], now) then Dropped(views[key]) else views[key]]
    ensures Pinged(c, views, keys, now)[key] == views[key]
  {
  }

  method Least(s: set<nat>) returns (m: nat)
    requires s != {}
    ensures m in s && forall x :: x in s ==> m <= x
  {
    m :| m in s;
    var rest := s;
    while rest != {}
      invariant rest <= s && m in s
      invariant forall x :: x in s && x !in rest ==> m <= x
      decreases rest
    {
      var x :| x in rest;
      if x < m { m := x; }
      rest := rest - {x};
    }
  }

  ghost predicate Offers(
    views: map<Key, NodeState>, t: nat, id: nat, include_: set<nat>, exclude: set<nat>, connected: Option<bool>)
  {
    && Key(t, id) in views
    && IsValid(t, include_, exclude)
    && views[Key(t, id)].complete
    && (connected == None || views[Key(t, id)].connected == connected.value)
  }

  /** The least admissible target that has the id at all. */
  ghost predicate FirstHolder(views: map<Key, NodeState>, t: nat, id: nat, include_: set<nat>, exclude: set<nat>) {
    && Key(t, id) in views && IsValid(t, include_, exclude)
    && forall u: nat :: u < t ==> !(Key(u, id) in views && IsValid(u, include_, exclude))
  }

  /** What `has_node` finds, and what `get_node` finds. */
  ghost predicate Has(views: map<Key, NodeState>, id: nat, include_: set<nat>, exclude: set<nat>,
      connected: Option<bool>) {
    exists t: nat :: FirstHolder(views, t, id, include_, exclude) && Offers(views, t, id, include_, exclude, connected)
  }

  ghost predicate Gets(views: map<Key, NodeState>, id: nat, include_: set<nat>, exclude: set<nat>,
      connected: Option<bool>) {
    exists t: nat :: Offers(views, t, id, include_, exclude, connected)
  }

  /** `has_node` misses a node that `get_node` finds when a lower target holds the same id in another state. */
  lemma HasNodeMisses(n: NodeState)
    requires n.complete && n.connected
    ensures var views := map[Key(1, 7) := Dropped(n), Key(2, 7) := n];
            Gets(views, 7, {}, {}, Some(true)) && !Has(views, 7, {}, {}, Some(true))
  {
    assert Offers(map[Key(1, 7) := Dropped(n), Key(2, 7) := n], 2, 7, {}, {}, Some(true));
  }

  /** On any two connections, a complete node is preceded only by complete nodes of the same id that are
      as connected as it is. */
  ghost predicate Uniform(views: map<Key, NodeState>, id: nat) {
    forall t: nat, u: nat :: t < u && Key(t, id) in views && Key(u, id) in views && views[Key(u, id)].complete ==>
      views[Key(t, id)].complete && views[Key(t, id)].connected == views[Key(u, id)].connected
  }

  /** The two agree on an id, whatever is included, excluded and asked for, exactly if the nodes with this id
      are uniform. */
  lemma {:induction false} HasNodeIffGetNode(views: map<Key, NodeState>, id: nat)
    ensures (forall include_: set<nat>, exclude: set<nat>, connected: Option<bool> ::
               Has(views, id, include_, exclude, connected) <==> Gets(views, id, include_, exclude, connected))
            <==> Uniform(views, id)
  {
    if Uniform(views, id) {
      forall include_: set<nat>, exclude: set<nat>, connected: Option<bool>
        ensures Has(views, id, include_, exclude, connected) <==> Gets(views, id, include_, exclude, connected)
      {
        if u: nat :| Offers(views, u, id, include_, exclude, connected) {
          Holder(views, u, id, include_, exclude);
          var t: nat :| t <= u && FirstHolder(views, t, id, include_, exclude);
          assert t < u ==> views[Key(t, id)].complete && views[Key(t, id)].connected == views[Key(u, id)].connected;
          assert Offers(views, t, id, include_, exclude, connected);
        }
      }
    } else {
      var t: nat, u: nat :| t < u && Key(t, id) in views && Key(u, id) in views && views[Key(u, id)].complete
        && !(views[Key(t, id)].complete && views[Key(t, id)].connected == views[Key(u, id)].connected);
      var asked := Some(views[Key(u, id)].connected);
      assert Offers(views, u, id, {t, u}, {}, asked);
      assert FirstHolder(views, t, id, {t, u}, {}) && !Offers(views, t, id, {t, u}, {}, asked);
      assert forall v: nat :: FirstHolder(views, v, id, {t, u}, {}) ==> v == t;
      assert Gets(views, id, {t, u}, {}, asked) && !Has(views, id, {t, u}, {}, asked);
    }
  }

  lemma {:induction false} Holder(views: map<Key, NodeState>, u: nat, id: nat, include_: set<nat>, exclude: set<nat>)
    requires Key(u, id) in views && IsValid(u, include_, exclude)
    ensures exists t: nat :: t <= u && FirstHolder(views, t, id, include_, exclude)
  {
    if v: nat :| v < u && Key(v, id) in views && IsValid(v, include_, exclude) {
      Holder(views, v, id, include_, exclude);
      var t: nat :| t <= v && FirstHolder(views, t, id, include_, exclude);
      assert t <= u;
    } else {
      assert FirstHolder(views, u, id, include_, exclude);
    }
  }

  lemma IncomingInTwoHalves(s: Snapshot, key: Key, body: Body, now: nat)
    ensures var (l, notices, known) := Admit(Entry(s, key), body, now);
            var t, e := Replaced(s, key, l), Incoming(key, body, now);
            if !known then Apply(s, e) == t && Says(s, e, key) == notices
            else
              && key in t.views
              && Apply(s, e) == t.(views := if body.Disconnected? then t.views - {key}
                                            else t.views[key := Deliver(t.views[key], body, now).0])
              && Says(s, e, key) == if body.Disconnected? then [NodeDisconnected]
                 else Deliver(t.views[key], body, now).1
  {
  }

  /** The maps from targets to maps from ids are represented by one map from pairs. */
  class Manager {
    var config: Config
    var nodes: map<Key, ClientNode>
    var ignored: set<Key>
    /** The calls made on the client, in order. */
    var calls: seq<Call>

    ghost function Nodes(): set<ClientNode>
      reads this`nodes
    {
      set k | k in nodes :: nodes[k]
    }

    /** No object stands for two nodes. */
    ghost predicate Valid()
      reads this`nodes
    {
      forall j, k :: j in nodes && k in nodes && nodes[j] == nodes[k] ==> j == k
    }

    ghost function Views(): map<Key, NodeState>
      reads this`nodes, Nodes()
    {
      map k | k in nodes :: nodes[k].state
    }

    ghost function State(): Snapshot
      reads this, Nodes()
    {
      Snapshot(config, Views(), ignored)
    }

    constructor (c: Config)
      ensures Valid() && Nodes() == {} && calls == []
      ensures State() == Snapshot(c, map[], {})
    {
      config, nodes, ignored, calls := c, map[], {}, [];
    }

    method Tell(call: Call)
      modifies this`calls
      ensures forall k :: Heard(calls, k) ==
                old(Heard(calls, k)) + if call.Notify? && call.key == k then [call.notice] else []
      ensures Broadcasts(calls) == old(Broadcasts(calls)) + if call.Notify? then [] else [call]
    {
      forall k { HeardAppend(calls, call, k); }
      calls := calls + [call];
    }

    method TellAll(key: Key, notices: seq<Notice>)
      modifies this`calls
      ensures Heard(calls, key) == old(Heard(calls, key)) + notices
      ensures forall k :: k != key ==> Heard(calls, k) == old(Heard(calls, k))
      ensures Broadcasts(calls) == old(Broadcasts(calls))
    {
      for i := 0 to |notices|
        invariant Heard(calls, key) == old(Heard(calls, key)) + notices[..i]
        invariant forall k :: k != key ==> Heard(calls, k) == old(Heard(calls, k))
        invariant Broadcasts(calls) == old(Broadcasts(calls))
      {
        Tell(Notify(key, notices[i]));
      }
    }

    method AdmitFrom(key: Key, body: Body, now: nat) returns (notices: seq<Notice>, known: bool)
      requires Valid()
      modifies this`nodes, this`ignored
      ensures Valid() && fresh(Nodes() - old(Nodes()))
      ensures State() == Replaced(old(State()), key, Admit(Entry(old(State()), key), body, now).0)
      ensures notices == Admit(Entry(old(State()), key), body, now).1
      ensures known == Admit(Entry(old(State()), key), body, now).2
      ensures known ==> key in nodes
    {
      notices := [];
      if key !in nodes {
        if key !in ignored {
          if body.NodePresent? && config.query {
            notices := [Queried];
          }
        } else {
          return notices, false;
        }
      }
      if body.Description? {
        if body.header.version < config.minVersion || body.header.version > config.maxVersion {
          ignored := ignored + {key};
          return notices, false;
        }
        if key !in nodes {
          AddNode(key, body.header, now);
        }
      }
      known := key in nodes;
    }

    method AddNode(key: Key, h: Header, now: nat)
      requires Valid() && key !in nodes
      modifies this`nodes
      ensures Valid() && fresh(Nodes() - old(Nodes()))
      ensures key in nodes
      ensures Views() == old(Views())[key := FreshNode(h, now)]
    {
      var node := new ClientNode(h, now);
      nodes := nodes[key := node];
    }

    method HandleAt(key: Key, body: Body, now: nat) returns (notices: seq<Notice>)
      requires Valid() && key in nodes
      modifies this`nodes, nodes[key]
      ensures Valid() && Nodes() <= old(Nodes())
      ensures State() == old(State()).(views :=
                if body.Disconnected? then old(Views()) - {key}
                else old(Views())[key := Deliver(old(Views())[key], body, now).0])
      ensures notices == if body.Disconnected? then [NodeDisconnected] else Deliver(old(Views())[key], body, now).1
    {
      if body.Disconnected? {
        nodes := nodes - {key};
        notices := [NodeDisconnected];
      } else {
        notices := nodes[key].Handle(body, now);
      }
    }

    method ReceiveFrom(key: Key, body: Body, now: nat) returns (notices: seq<Notice>)
      requires Valid()
      modifies this`nodes, this`ignored, Nodes()
      ensures Valid() && fresh(Nodes() - old(Nodes()))
      ensures State() == Apply(old(State()), Incoming(key, body, now))
      ensures notices == Says(old(State()), Incoming(key, body, now), key)
    {
      IncomingInTwoHalves(State(), key, body, now);
      var known;
      notices, known := AdmitFrom(key, body, now);
      if known {
        notices := HandleAt(key, body, now);
      }
    }

    method ProcessMessage(key: Key, body: Body, now: nat)
      requires Valid()
      modifies this`nodes, this`ignored, this`calls, Nodes()
      ensures Valid() && fresh(Nodes() - old(Nodes()))
      ensures State() == Apply(old(State()), Incoming(key, body, now))
      ensures forall k :: Heard(calls, k) == old(Heard(calls, k)) + Says(old(State()), Incoming(key, body, now), k)
      ensures Broadcasts(calls) == old(Broadcasts(calls))
    {
      var notices := ReceiveFrom(key, body, now);
      TellAll(key, notices);
    }

    /** ListNodes, then drop the nodes not heard of for too long, then ask everybody for a description if
        no node is left. */
    method PingNetwork(now: nat)
      requires Valid()
      modifies this`calls, Nodes()
      ensures Valid()
      ensures State() == Apply(old(State()), PingAll(now))
      ensures forall k :: Heard(calls, k) == old(Heard(calls, k)) + Says(old(State()), PingAll(now), k)
      ensures Broadcasts(calls) == old(Broadcasts(calls)) + [ListNodes] + if AnyConnected(Views()) then []
              else [GetDescription]
    {
      Tell(ListNodes);
      CheckTimeouts(now);
    }

    method CheckTimeouts(now: nat)
      requires Valid()
      modifies this`calls, Nodes()
      ensures Valid()
      ensures State() == Apply(old(State()), PingAll(now))
      ensures forall k :: Heard(calls, k) == old(Heard(calls, k)) + Says(old(State()), PingAll(now), k)
      ensures Broadcasts(calls) == old(Broadcasts(calls)) + if AnyConnected(Views()) then [] else [GetDescription]
    {
      PingedConnected(config, Views(), now);
      var dropped, anyConnected := DropSilent(now);
      NotifyDropped(dropped, anyConnected);
    }

    method DropSilent(now: nat) returns (dropped: set<Key>, anyConnected: bool)
      requires Valid()
      modifies Nodes()
      ensures Valid()
      ensures Views() == Pinged(config, old(Views()), old(Views()).Keys, now)
      ensures forall k :: k in dropped <==> k in old(Views()) && Silent(config, old(Views())[k], now)
      ensures anyConnected <==>
              exists k :: k in old(Views()) && old(Views())[k].connected && !Silent(config, old(Views())[k], now)
    {
      dropped, anyConnected := {}, false;
      ghost var before := Views();
      var done: set<Key> := {};
      while nodes.Keys - done != {}
        invariant done <= nodes.Keys && Valid()
        invariant Views() == Pinged(config, before, done, now)
        invariant forall k :: k in dropped <==> k in done && Silent(config, before[k], now)
        invariant anyConnected <==> exists k :: k in done && before[k].connected && !Silent(config, before[k], now)
        decreases nodes.Keys - done
      {
        var key :| key in nodes.Keys - done;
        PingedStep(config, before, done, key, now);
        var silent, connected := DropIfSilent(key, now);
        if silent {
          dropped := dropped + {key};
        }
        anyConnected := anyConnected || connected;
        done := done + {key};
      }
      forall k | k in nodes.Keys ensures k in done { assert k !in nodes.Keys - done; }
      assert done == nodes.Keys;
    }

    method DropIfSilent(key: Key, now: nat) returns (silent: bool, connected: bool)
      requires Valid() && key in nodes
      modifies nodes[key]
      ensures Valid()
      ensures silent == Silent(config, old(Views())[key], now)
      ensures Views() == old(Views())[key := if silent then Dropped(old(Views())[key]) else old(Views())[key]]
      ensures connected == (old(Views())[key].connected && !silent)
    {
      var node := nodes[key];
      silent := node.state.connected && config.timeout > 0 && node.state.version >= 5
                && (now < node.state.lastSeen || now - node.state.lastSeen > config.timeout);
      if silent {
        node.state := node.state.(connected := false);
      }
      connected := node.state.connected;
    }

    method DropNode(key: Key, notify: bool) returns (notices: seq<Notice>)
      requires Valid() && key in nodes
      modifies nodes[key]
      ensures Valid()
      ensures Views() == old(Views())[key := Dropped(old(Views())[key])]
      ensures notices == DropNotices(old(Views())[key], notify)
    {
      var node := nodes[key];
      notices := if node.state.connected && notify then [NodeDisconnected] else [];
      node.state := node.state.(connected := false);
    }

    method NotifyDropped(dropped: set<Key>, anyConnected: bool)
      modifies this`calls
      ensures forall k :: Heard(calls, k) == old(Heard(calls, k)) + if k in dropped then [NodeDisconnected] else []
      ensures Broadcasts(calls) == old(Broadcasts(calls)) + if anyConnected then [] else [GetDescription]
    {
      var rest := dropped;
      while rest != {}
        invariant rest <= dropped
        invariant forall k :: Heard(calls, k) == old(Heard(calls, k)) + if k in dropped && k !in rest
                  then [NodeDisconnected] else []
        invariant Broadcasts(calls) == old(Broadcasts(calls))
        decreases rest
      {
        var key :| key in rest;
        Tell(Notify(key, NodeDisconnected));
        rest := rest - {key};
      }
      if !anyConnected {
        Tell(GetDescription);
      }
    }

    /** A closed stream: its nodes are kept, but no longer connected. */
    method Disconnect(target: nat, notify: bool)
      requires Valid()
      modifies this`calls, Nodes()
      ensures Valid()
      ensures State() == Apply(old(State()), CloseTarget(target, notify))
      ensures forall k :: Heard(calls, k) == old(Heard(calls, k)) + Says(old(State()), CloseTarget(target, notify), k)
      ensures Broadcasts(calls) == old(Broadcasts(calls))
    {
      var keys := set k | k in nodes && k.target == target;
      assert keys == OnTarget(Views(), target);
      DropAll(keys, notify);
    }

    method DropAndTell(key: Key, notify: bool)
      requires Valid() && key in nodes
      modifies this`calls, nodes[key]
      ensures Valid()
      ensures Views() == old(Views())[key := Dropped(old(Views())[key])]
      ensures Heard(calls, key) == old(Heard(calls, key)) + DropNotices(old(Views())[key], notify)
      ensures forall k :: k != key ==> Heard(calls, k) == old(Heard(calls, k))
      ensures Broadcasts(calls) == old(Broadcasts(calls))
    {
      var notices := DropNode(key, notify);
      TellAll(key, notices);
    }

    /** The loop shared by `disconnect` and a notifying `reset`. */
    method DropAll(keys: set<Key>, notify: bool)
      requires Valid() && keys <= nodes.Keys
      modifies this`calls, Nodes()
      ensures Valid()
      ensures Views() == AllDropped(old(Views()), keys)
      ensures forall k :: k in keys ==> Heard(calls, k) == old(Heard(calls, k)) + DropNotices(old(Views())[k], notify)
      ensures forall k :: k !in keys ==> Heard(calls, k) == old(Heard(calls, k))
      ensures Broadcasts(calls) == old(Broadcasts(calls))
    {
      ghost var before := Views();
      var done: set<Key> := {};
      while keys - done != {}
        invariant done <= keys && Valid()
        invariant Views() == AllDropped(before, done)
        invariant forall k :: k in done ==> Heard(calls, k) == old(Heard(calls, k)) + DropNotices(before[k], notify)
        invariant forall k :: k !in done ==> Heard(calls, k) == old(Heard(calls, k))
        invariant Broadcasts(calls) == old(Broadcasts(calls))
        decreases keys - done
      {
        var key :| key in keys - done;
        AllDroppedStep(before, done, key);
        DropAndTell(key, notify);
        done := done + {key};
      }
      forall k | k in keys ensures k in done { assert k !in keys - done; }
      assert done == keys;
    }

    method ResetAll(notify: bool)
      requires Valid()
      modifies this, Nodes()
      ensures Valid()
      ensures Nodes() == {}
      ensures State() == Apply(old(State()), ResetNodes(notify))
      ensures forall k :: Heard(calls, k) == old(Heard(calls, k)) + Says(old(State()), ResetNodes(notify), k)
      ensures Broadcasts(calls) == old(Broadcasts(calls))
    {
      if notify {
        DropAll(nodes.Keys, true);
      }
      nodes, ignored := map[], {};
    }

    method SetConfig(c: Config)
      requires Valid()
      modifies this`config
      ensures Valid()
      ensures State() == Apply(old(State()), Reconfigure(c))
    {
      config := c;
    }

    method Do(e: Event)
      requires Valid()
      modifies this, Nodes()
      ensures Valid() && fresh(Nodes() - old(Nodes()))
      ensures State() == Apply(old(State()), e)
      ensures forall k :: Heard(calls, k) == old(Heard(calls, k)) + Says(old(State()), e, k)
    {
      match e {
        case Incoming(key, body, now) => ProcessMessage(key, body, now);
        case PingAll(now) => PingNetwork(now);
        case CloseTarget(target, notify) => Disconnect(target, notify);
        case ResetNodes(notify) => ResetAll(notify);
        case Reconfigure(c) => SetConfig(c);
      }
    }

    /** A manager that has lived through any events is, node by node, what the specification says. */
    method Replay(events: seq<Event>)
      requires Valid() && State() == Snapshot(config, map[], {}) && calls == []
      modifies this, Nodes()
      ensures Valid() && fresh(Nodes() - old(Nodes()))
      ensures forall k :: Entry(State(), k) == Run(old(config), ProjectAll(events, k))
      ensures forall k :: Heard(calls, k) == Calls(old(config), ProjectAll(events, k))
    {
      ghost var c := config;
      for i := 0 to |events|
        invariant Valid() && fresh(Nodes() - old(Nodes()))
        invariant State() == After(c, events[..i])
        invariant forall k :: Heard(calls, k) == SaysAll(c, events[..i], k)
      {
        assert events[..i + 1][..i] == events[..i];
        Do(events[i]);
      }
      assert events[..|events|] == events;
      forall k ensures Entry(State(), k) == Run(c, ProjectAll(events, k))
        && Heard(calls, k) == Calls(c, ProjectAll(events, k)) {
        EveryNodeRunsAlone(c, events, k);
      }
    }

    /** The node with an id on the least admissible target where it is complete and as connected as asked. */
    method GetNode(id: nat, include_: set<nat>, exclude: set<nat>, connected: Option<bool>) returns (node: ClientNode?)
      ensures node == null <==> forall t: nat :: !Offers(Views(), t, id, include_, exclude, connected)
      ensures node != null ==>
                exists t: nat :: Key(t, id) in nodes && node == nodes[Key(t, id)] &&
                  Offers(Views(), t, id, include_, exclude, connected) &&
                  forall u: nat :: u < t ==> !Offers(Views(), u, id, include_, exclude, connected)
    {
      var rest := set k | k in nodes :: k.target;
      while rest != {}
        invariant forall t: nat :: t !in rest ==> !Offers(Views(), t, id, include_, exclude, connected)
        decreases rest
      {
        var target := Least(rest);
        if IsValid(target, include_, exclude) && Key(target, id) in nodes {
          node := nodes[Key(target, id)];
          if node.state.complete && (connected == None || node.state.connected == connected.value) {
            assert Offers(Views(), target, id, include_, exclude, connected);
            forall u: nat | u < target ensures !Offers(Views(), u, id, include_, exclude, connected) {
              assert u !in rest;
            }
            return;
          }
        }
        rest := rest - {target};
      }
      node := null;
    }

    /** Asks only the least admissible target that has the id. */
    method HasNode(id: nat, include_: set<nat>, exclude: set<nat>, connected: Option<bool>) returns (r: bool)
      ensures r <==> Has(Views(), id, include_, exclude, connected)
    {
      var rest := set k | k in nodes :: k.target;
      while rest != {}
        invariant forall t: nat :: t !in rest ==> !(Key(t, id) in nodes && IsValid(t, include_, exclude))
        decreases rest
      {
        var target := Least(rest);
        if IsValid(target, include_, exclude) && Key(target, id) in nodes {
          var node := nodes[Key(target, id)];
          assert FirstHolder(Views(), target, id, include_, exclude);
          return node.state.complete && (connected == None || node.state.connected == connected.value);
        }
        rest := rest - {target};
      }
      r := false;
    }

    method GetNodeIds(include_: set<nat>, exclude: set<nat>, connected: Option<bool>) returns (ids: map<nat, set<nat>>)
      ensures forall t: nat, i: nat :: (t in ids && i in ids[t]) <==>
              Offers(Views(), t, i, include_, exclude, connected)
      ensures forall t :: t in ids ==> ids[t] != {}
    {
      ids := map[];
      var done: set<Key> := {};
      while nodes.Keys - done != {}
        invariant done <= nodes.Keys
        invariant forall t: nat, i: nat :: (t in ids && i in ids[t]) <==>
                    Key(t, i) in done && Offers(Views(), t, i, include_, exclude, connected)
        invariant forall t :: t in ids ==> ids[t] != {}
        decreases nodes.Keys - done
      {
        var key :| key in nodes.Keys - done;
        var n := nodes[key].state;
        if IsValid(key.target, include_, exclude) && n.complete
          && (connected == None || n.connected == connected.value) {
          ids := ids[key.target := (if key.target in ids then ids[key.target] else {}) + {key.id}];
        }
        done := done + {key};
      }
      forall k | k in nodes.Keys ensures k in done { assert k !in nodes.Keys - done; }
    }
  }
}
