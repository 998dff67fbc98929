/** When do the values a client remembers agree with the remote memory, and what does `sync` deliver?
    The specification of get, set, sync, update and the event callback of pyaseba/client/node/node.py. */
module CacheSync {
  import opened Layout
  import opened FlatMemory
  import opened Int16Cells

  /** The remote memory, the table of its variables, and the node object's three dictionaries of values. */
  datatype State = State(memory: seq<int>, table: VariablesMap, current: Cache, prev: Cache, next: Cache)

  datatype Op =
    | Update(answered: bool)
    | Get(name: string, cached: bool, answered: bool)
    | SetDirect(name: string, value: seq<int>)
    | SetCached(name: string, value: seq<int>)
    | Mirrored(values: Cache)
    | Sync(order: seq<string>)
    | Remote(memory: seq<int>)
    | Describe(table: VariablesMap, memory: seq<int>)

  /** What the client can name on the node: the variables in layout order. */
  function Read(memory: seq<int>, m: VariablesMap, name: string): seq<int> {
    if name in m && m[name].index + m[name].size <= |memory|
    then memory[m[name].index..m[name].index + m[name].size] else []
  }

  function ReadAll(memory: seq<int>, m: VariablesMap): Cache {
    map name | name in m :: Read(memory, m, name)
  }

  function Write(memory: seq<int>, m: VariablesMap, name: string, value: seq<int>): seq<int> {
    if name in m then Overwrite(memory, m[name].index, value) else memory
  }

  /** The bindings refuse a value with a cell that is no int16, before anything has been sent or stored. */
  function DirectSet(s: State, name: string, value: seq<int>): State {
    if AllInt16(value) then s.(memory := Write(s.memory, s.table, name, value), current := s.current[name := value])
      else s
  }

  /** Does `sync` have to send the pending value? Not if it is the value remembered. */
  predicate Differs(s: State, name: string)
    requires name in s.next
  {
    name !in s.prev || s.next[name] != s.prev[name]
  }

  /** A pending value that makes `sync` raise. */
  predicate Blocks(s: State, name: string) {
    name in s.next && Differs(s, name) && !AllInt16(s.next[name])
  }

  predicate Sends(s: State, name: string) {
    name in s.next && Differs(s, name) && AllInt16(s.next[name])
  }

  function SyncOne(s: State, name: string): State {
    if Sends(s, name) then
      var t := DirectSet(s, name, s.next[name]);
      t.(prev := t.prev[name := s.next[name]])
    else s
  }

  function SyncAlong(s: State, order: seq<string>): State {
    if order == [] then s else SyncOne(SyncAlong(s, order[..|order| - 1]), order[|order| - 1])
  }

  /** How many names are gone through before one makes `sync` raise. */
  function Reach(s: State, order: seq<string>): (n: nat)
    ensures n <= |order|
    ensures (n < |order| ==> Blocks(s, order[n]))
    ensures forall k :: 0 <= k < n ==> !Blocks(s, order[k])
  {
    if order == [] || Blocks(s, order[0]) then 0 else 1 + Reach(s, order[1..])
  }

  /** Values for names already cached replace the current and the previous value. */
  function Refreshed(c: Cache, cached: Cache, values: Cache): Cache {
    c + map name | name in values && name in cached :: values[name]
  }

  /** The values of a node that has just been described: an empty list for every variable. */
  function Blank(m: VariablesMap): Cache {
    map name | name in m :: []
  }

  /** Those that are sent. */
  function SentOf(s: State, order: seq<string>): set<string> {
    set name | name in order && Sends(s, name)
  }

  /** Describe stands for connecting and for loading a script: the node may have other variables afterwards, and
      other values; what is remembered and what is pending stays. */
  function Step(s: State, op: Op): State {
    match op
    case Update(answered) =>
      if answered && s.table != map[]
        then s.(current := ReadAll(s.memory, s.table), prev := ReadAll(s.memory, s.table)) else s
    case Get(name, cached, answered) =>
      if !cached || name !in s.current then
        var v := if answered then Read(s.memory, s.table, name) else [];
        s.(current := s.current[name := v], prev := s.prev[name := v])
      else s
    case SetDirect(name, value) => DirectSet(s, name, value)
    case SetCached(name, value) => s.(next := s.next[name := value], current := s.current[name := value])
    case Mirrored(values) =>
      s.(current := Refreshed(s.current, s.current, values), prev := Refreshed(s.prev, s.current, values))
    case Sync(order) =>
      var n := Reach(s, order);
      var t := SyncAlong(s, order[..n]);
      if n == |order| then t.(next := map[]) else t
    case Remote(memory) => s.(memory := memory)
    case Describe(table, memory) => s.(table := table, memory := memory, current := Blank(table))
  }

  ghost predicate NoRepeat(order: seq<string>) {
    forall j, k :: 0 <= j < k < |order| ==> order[j] != order[k]
  }

  /** An order in which a set of names can be gone through. */
  ghost predicate Lists(order: seq<string>, names: set<string>) {
    && (forall k :: 0 <= k < |order| ==> order[k] in names)
    && (forall name :: name in names ==> name in order)
    && NoRepeat(order)
  }

  /** The order goes through all of the names, or ends with the first one that makes `sync` raise. */
  ghost predicate GoesThrough(s: State, order: seq<string>, names: set<string>) {
    && NoRepeat(order) && (forall name :: name in order ==> name in names)
    && if Reach(s, order) == |order| then Lists(order, names) else Reach(s, order) == |order| - 1
  }

  /** Pending values have the size of their variables. */
  ghost predicate Fits(m: VariablesMap, name: string, value: seq<int>) {
    name in m ==> |value| == m[name].size
  }

  ghost predicate PendingFit(s: State) {
    forall name :: name in s.next ==> Fits(s.table, name, s.next[name])
  }

  ghost predicate Tiles(m: VariablesMap, vs: seq<Variable>, memory: seq<int>) {
    DistinctNames(vs) && PositiveSizes(vs) && m == VariablesMapOf(vs) && |memory| == TotalSize(vs)
  }

  ghost predicate Tiled(s: State) {
    exists vs :: Tiles(s.table, vs, s.memory)
  }

  /** Variable k has this name, this place, and cells of the memory. */
  ghost predicate IsPlace(m: VariablesMap, vs: seq<Variable>, memory: seq<int>, name: string, k: nat) {
    && k < |vs| && vs[k].name == name && name in m && m[name] == Place(Offset(vs, k), vs[k].size)
    && m[name].size > 0 && m[name].index + m[name].size <= |memory|
  }

  lemma {:induction false} PlaceOf(m: VariablesMap, vs: seq<Variable>, memory: seq<int>, name: string)
    requires Tiles(m, vs, memory) && name in m
    ensures exists k: nat :: IsPlace(m, vs, memory, name, k)
  {
    TableNames(vs, |vs|, name);
    var k: nat :| k < |vs| && vs[k].name == name;
    TableIsPrefixSums(vs, |vs|, k);
    OffsetBound(vs, k);
    assert IsPlace(m, vs, memory, name, k);
  }

  /** A write ends with the variable, or with the memory. */
  predicate StaysInside(m: VariablesMap, size: nat, name: string, n: nat) {
    name in m ==> n <= m[name].size || m[name].index + m[name].size == size
  }

  /** What has been written is read back as far as the variable goes, then what was there before; and no
      other variable notices a write that stays inside. */
  lemma {:induction false} ReadAfterWrite(
    m: VariablesMap, vs: seq<Variable>, memory: seq<int>, name: string, value: seq<int>, other: string)
    requires Tiles(m, vs, memory)
    ensures |Write(memory, m, name, value)| == |memory|
    ensures name in m ==>
              var n := Shorter(|value|, m[name].size);
              |Read(memory, m, name)| == m[name].size &&
              Read(Write(memory, m, name, value), m, name) == value[..n] + Read(memory, m, name)[n..]
    ensures other != name && StaysInside(m, |memory|, name, |value|) ==>
              Read(Write(memory, m, name, value), m, other) == Read(memory, m, other)
  {
    if name in m {
      PlaceOf(m, vs, memory, name);
      var k: nat :| IsPlace(m, vs, memory, name, k);
      OverwrittenSlice(memory, m[name].index, m[name].size, value);
      if other in m && other != name && StaysInside(m, |memory|, name, |value|) {
        PlaceOf(m, vs, memory, other);
        var j: nat :| IsPlace(m, vs, memory, other, j);
        OtherPlace(m, vs, memory, name, value, k, other, j);
      }
    }
  }

  lemma {:induction false} OtherPlace(
    m: VariablesMap, vs: seq<Variable>, memory: seq<int>, name: string, value: seq<int>, k: nat, other: string, j: nat)
    requires IsPlace(m, vs, memory, name, k) && IsPlace(m, vs, memory, other, j) && j != k
    requires StaysInside(m, |memory|, name, |value|)
    ensures Read(Write(memory, m, name, value), m, other) == Read(memory, m, other)
  {
    if j < k { DisjointVariables(vs, j, k); } else { DisjointVariables(vs, k, j); }
    UntouchedSlice(memory, m[name].index, value, m[other].index, m[other].size);
  }

  /** No other variable notices a write, in any memory. */
  ghost predicate ChangesNoOther(m: VariablesMap, size: nat, name: string, value: seq<int>) {
    forall memory: seq<int>, other: string :: |memory| == size && other != name ==>
      Read(Write(memory, m, name, value), m, other) == Read(memory, m, other)
  }

  /** Exactly if the value is no longer than the variable, or the variable is the last one. */
  lemma {:induction false} ChangesNoOtherIff(m: VariablesMap, vs: seq<Variable>, name: string, value: seq<int>)
    requires DistinctNames(vs) && PositiveSizes(vs) && m == VariablesMapOf(vs)
    ensures ChangesNoOther(m, TotalSize(vs), name, value) <==> StaysInside(m, TotalSize(vs), name, |value|)
  {
    var size := TotalSize(vs);
    if StaysInside(m, size, name, |value|) {
      forall memory: seq<int>, other: string | |memory| == size && other != name
        ensures Read(Write(memory, m, name, value), m, other) == Read(memory, m, other)
      {
        ReadAfterWrite(m, vs, memory, name, value, other);
      }
    } else {
      NextVariableChanges(m, vs, name, value);
    }
  }

  lemma {:induction false} NextVariableChanges(m: VariablesMap, vs: seq<Variable>, name: string, value: seq<int>)
    requires DistinctNames(vs) && PositiveSizes(vs) && m == VariablesMapOf(vs)
    requires !StaysInside(m, TotalSize(vs), name, |value|)
    ensures exists memory: seq<int>, other: string ::
              |memory| == TotalSize(vs) && other != name
                && Read(Write(memory, m, name, value), m, other) != Read(memory, m, other)
  {
    var size := m[name].size;
    var memory := seq(TotalSize(vs), _ => value[size] + 1);
    PlaceOf(m, vs, memory, name);
    var k: nat :| IsPlace(m, vs, memory, name, k);
    var other, cell := vs[k + 1].name, m[name].index + size;
    TableIsPrefixSums(vs, |vs|, k + 1);
    OffsetBound(vs, k + 1);
    assert m[other].index == cell && Read(memory, m, other)[0] == memory[cell];
    assert Read(Write(memory, m, name, value), m, other)[0] == Write(memory, m, name, value)[cell];
  }

  /** One cell too many, and the next variable changes. */
  lemma LongValueSpills()
    ensures var vs := [Variable("a", 1), Variable("b", 1)]; var m := VariablesMapOf(vs);
            Read([0, 0], m, "b") == [0] && Read(Write([0, 0], m, "a", [5, 6]), m, "b") == [6]
  {
    var vs := [Variable("a", 1), Variable("b", 1)];
    assert TableUpTo(vs, 1) == map["a" := Place(0, 1)];
    assert Offset(vs, 1) == 1;
    assert TableUpTo(vs, 2) == map["a" := Place(0, 1), "b" := Place(1, 1)];
    assert VariablesMapOf(vs)["a"] == Place(0, 1) && VariablesMapOf(vs)["b"] == Place(1, 1);
    assert Overwrite([0, 0], 0, [5, 6]) == [5, 6];
  }

  // ---------------------------------------------------------------- what sync does

  /** What going along the order does to the three values of a name. */
  ghost predicate SyncedAt(s: State, order: seq<string>, name: string) {
    var t, sent := SyncAlong(s, order), name in SentOf(s, order);
    && t.next == s.next && t.table == s.table
    && (name in t.prev <==> sent || name in s.prev)
    && (name in t.prev ==> t.prev[name] == if sent then s.next[name] else s.prev[name])
    && (name in t.current <==> sent || name in s.current)
    && (name in t.current ==> t.current[name] == if sent then s.next[name] else s.current[name])
  }

  lemma {:induction false} SyncValues(s: State, order: seq<string>, name: string)
    ensures SyncedAt(s, order, name)
  {
    if order != [] {
      var before, last := order[..|order| - 1], order[|order| - 1];
      SyncValues(s, before, name);
      assert name in order <==> name in before || name == last;
    }
  }

  /** Whatever the order: a pending variable that differs and can be sent is written and remembered, all
      others are left as they were. */
  lemma {:induction false} SyncEffect(s: State, vs: seq<Variable>, order: seq<string>, name: string)
    requires Tiles(s.table, vs, s.memory) && PendingFit(s)
    ensures SyncedAt(s, order, name)
    ensures var t := SyncAlong(s, order);
            && |t.memory| == |s.memory|
            && Read(t.memory, t.table, name) ==
               if name in SentOf(s, order) && name in s.table then s.next[name] else Read(s.memory, s.table, name)
  {
    SyncValues(s, order, name);
    if order != [] {
      var before, last := order[..|order| - 1], order[|order| - 1];
      var t := SyncAlong(s, before);
      SyncEffect(s, vs, before, name);
      SyncValues(s, before, last);
      assert name in order <==> name in before || name == last;
      if Sends(t, last) {
        WholeValue(s.table, vs, t.memory, last, s.next[last], name);
      }
    }
  }

  /** A value of the declared size replaces the variable, and nothing else. */
  lemma {:induction false} WholeValue(
    m: VariablesMap, vs: seq<Variable>, memory: seq<int>, name: string, value: seq<int>, other: string)
    requires Tiles(m, vs, memory) && Fits(m, name, value)
    ensures |Write(memory, m, name, value)| == |memory|
    ensures Read(Write(memory, m, name, value), m, other) ==
            if other == name && name in m then value else Read(memory, m, other)
  {
    ReadAfterWrite(m, vs, memory, name, value, other);
  }

  /** What is pending and what is remembered of a name that has not been gone through. */
  lemma {:induction false} SyncKeeps(s: State, order: seq<string>, name: string)
    requires name !in order
    ensures var t := SyncAlong(s, order);
            && t.next == s.next
            && t.table == s.table
            && (Sends(t, name) <==> Sends(s, name))
               && (Blocks(t, name) <==> Blocks(s, name))
            && (name in t.prev <==> name in s.prev)
            && (name in t.prev ==> t.prev[name] == s.prev[name])
  {
    if order != [] {
      var n := |order| - 1;
      assert order[n] in order;
      SyncKeeps(s, order[..n], name);
    }
  }

  /** One name more: it is gone through like the others, or ends the sync as it is. */
  lemma {:induction false} SyncFurther(s: State, order: seq<string>, name: string)
    requires Reach(s, order) == |order| && name !in order
    ensures var t := SyncAlong(s, order);
            && (Blocks(t, name) <==> Blocks(s, name))
            && SyncAlong(s, order + [name]) == SyncOne(t, name)
            && Reach(s, order + [name]) == (if Blocks(s, name) then |order| else |order| + 1)
            && (Blocks(s, name) ==> SyncOne(t, name) == t && Step(s, Sync(order + [name])) == t)
  {
    var more := order + [name];
    SyncKeeps(s, order, name);
    assert more[..|order|] == order && more[|order|] == name;
    assert forall k :: 0 <= k < |order| ==> more[k] == order[k];
  }

  lemma {:induction false} ListsFurther(order: seq<string>, names: set<string>, name: string)
    requires Lists(order, names) && name !in names
    ensures Lists(order + [name], names + {name})
  {
    assert forall n :: n in order ==> n in order + [name];
  }

  lemma {:induction false} SyncEnds(s: State, order: seq<string>)
    requires Reach(s, order) == |order|
    ensures Step(s, Sync(order)) == SyncAlong(s, order).(next := map[])
  {
    assert order[..|order|] == order;
  }

  /** The last name is refused: nothing has happened there. */
  lemma {:induction false} SyncStops(s: State, order: seq<string>)
    requires Reach(s, order) == |order| - 1
    ensures Step(s, Sync(order)) == SyncAlong(s, order)
    ensures SentOf(s, order) == SentOf(s, order[..|order| - 1])
  {
    var n := |order| - 1;
    SyncValues(s, order[..n], order[n]);
    assert !Sends(s, order[n]);
    assert order == order[..n] + [order[n]];
  }

  /** sync raises, and keeps what is pending, exactly if one of the variables has a pending value that is not the one
      remembered and that the bindings refuse. */
  lemma {:induction false} SyncRaisesIff(s: State, order: seq<string>)
    ensures Step(s, Sync(order)).next ==
            if exists k :: 0 <= k < |order| && order[k] in s.next && !AllInt16(s.next[order[k]])
                           && !(order[k] in s.prev && s.prev[order[k]] == s.next[order[k]])
            then s.next else map[]
  {
    var n := Reach(s, order);
    SyncValues(s, order[..n], "");
    assert n < |order| ==> Blocks(s, order[n]);
    assert forall k :: 0 <= k < n ==> !Blocks(s, order[k]);
  }

  // ---------------------------------------------------------------- what a program sees

  /** With this, the program sees this value of the variable. */
  ghost predicate Shows(s: State, op: Op, name: string, value: seq<int>) {
    match op
    case Update(answered) => answered && name in s.table && value == Read(s.memory, s.table, name)
    case Get(n, cached, answered) =>
      n == name && !(cached && name in s.current) && value == if answered then Read(s.memory, s.table, name) else []
    case SetDirect(n, v) => n == name && AllInt16(v) && value == v
    case SetCached(n, v) => n == name && value == v
    case Mirrored(vs) => name in vs && name in s.current && value == vs[name]
    case Sync(_) => false
    case Remote(_) => false
    case Describe(table, _) => name in table && value == []
  }

  /** This may show another value of the variable. */
  ghost predicate MayShow(op: Op, name: string) {
    match op
    case Update(answered) => answered
    case Get(n, cached, _) => n == name && !cached
    case SetDirect(n, v) => n == name && AllInt16(v)
    case SetCached(n, _) => n == name
    case Mirrored(values) => name in values
    case Sync(_) => false
    case Remote(_) => false
    case Describe(_, _) => true
  }

  ghost predicate IsSeen(s: State, name: string, value: seq<int>) {
    name in s.current && s.current[name] == value && (name in s.next ==> s.next[name] == value)
  }

  lemma {:induction false} SeenStep(s: State, op: Op, name: string, value: seq<int>)
    requires IsSeen(s, name, value) && !MayShow(op, name)
    ensures IsSeen(Step(s, op), name, value)
  {
    if op.Sync? { SyncValues(s, op.order[..Reach(s, op.order)], name); }
  }

  lemma {:induction false} SeenStays(s: State, ops: seq<Op>, name: string, value: seq<int>)
    requires IsSeen(s, name, value) && forall k :: 0 <= k < |ops| ==> !MayShow(ops[k], name)
    ensures IsSeen(Run(s, ops), name, value)
  {
    if ops != [] {
      SeenStays(s, ops[..|ops| - 1], name, value);
      SeenStep(Run(s, ops[..|ops| - 1]), ops[|ops| - 1], name, value);
    }
  }

  /** A program sees what has been shown last, its own writes among it, whether they are still pending, have been sent
      or never will be, and whatever happens to the node; unless an older value is pending, which sync will show. */
  lemma {:induction false} LastShownIsSeen(s: State, op: Op, ops: seq<Op>, name: string, value: seq<int>)
    ensures Shows(s, op, name, value) && (op.SetCached? || name !in s.next)
            && (forall k :: 0 <= k < |ops| ==> !MayShow(ops[k], name)) ==>
            IsSeen(Run(Step(s, op), ops), name, value)
  {
    if Shows(s, op, name, value) && (op.SetCached? || name !in s.next)
       && (forall k :: 0 <= k < |ops| ==> !MayShow(ops[k], name)) {
      SeenStays(Step(s, op), ops, name, value);
    }
  }

  // ---------------------------------------------------------------- coherence

  /** What a client cannot rely on. stale: names written directly, or given another value by loading a script, since
      their value was last refreshed. unanswered: names whose last request had no answer. */
  datatype Doubt = Doubt(stale: set<string>, unanswered: set<string>)

  const NO_DOUBT := Doubt({}, {})

  function Settled(d: Doubt, names: set<string>): Doubt {
    Doubt(d.stale - names, d.unanswered - names)
  }

  /** The remembered names that have another value in the node as described now. */
  function Moved(s: State, table: VariablesMap, memory: seq<int>): set<string> {
    set name | name in s.prev && Read(memory, table, name) != Read(s.memory, s.table, name)
  }

  function DoubtAfter(s: State, op: Op, d: Doubt): Doubt {
    match op
    case Update(answered) => if answered && s.table != map[] then NO_DOUBT else d
    case Get(name, cached, answered) =>
      if cached && name in s.current then d
      else if answered then Settled(d, {name})
      else Doubt(d.stale - {name}, d.unanswered + {name})
    case SetDirect(name, value) => if AllInt16(value) then d.(stale := d.stale + {name}) else d
    case SetCached(_, _) => d
    case Mirrored(values) => Settled(d, set name | name in values && name in s.current)
    case Sync(order) => Settled(d, SentOf(s, order[..Reach(s, order)]))
    case Remote(_) => d
    case Describe(table, memory) => d.(stale := d.stale + Moved(s, table, memory))
  }

  /** The remembered value is the remote one; only of a name whose last request had no answer it is the
      empty list, which that request has left. */
  ghost predicate CoherentAt(s: State, d: Doubt, name: string) {
    name in s.prev ==>
      if name in d.unanswered then s.prev[name] == []
      else name in d.stale || (name in s.table ==> s.prev[name] == Read(s.memory, s.table, name))
  }

  ghost predicate Coherent(s: State, owned: set<string>, d: Doubt) {
    forall name :: name in owned ==> CoherentAt(s, d, name)
  }

  /** Cached values have the declared sizes, direct ones are no longer, events carry the values of the moment,
      and the owned variables are changed by this client only. */
  ghost predicate Faithful(s: State, owned: set<string>, op: Op) {
    match op
    case Update(_) => true
    case Get(_, _, _) => true
    case SetDirect(name, value) => AllInt16(value) ==> StaysInside(s.table, |s.memory|, name, |value|)
    case SetCached(name, value) => Fits(s.table, name, value)
    case Mirrored(values) =>
      forall name :: name in values && name in s.table && name in owned ==>
        values[name] == Read(s.memory, s.table, name)
    case Sync(order) => NoRepeat(order)
    case Remote(memory) =>
      |memory| == |s.memory| && forall name :: name in owned ==>
        Read(memory, s.table, name) == Read(s.memory, s.table, name)
    case Describe(table, memory) => var t := Step(s, op); Tiled(t) && PendingFit(t)
  }

  lemma {:induction false} CoherentStep(s: State, vs: seq<Variable>, owned: set<string>, d: Doubt, op: Op)
    requires Tiles(s.table, vs, s.memory) && PendingFit(s) && Coherent(s, owned, d) && Faithful(s, owned, op)
    ensures Tiled(Step(s, op))
    ensures PendingFit(Step(s, op))
    ensures Coherent(Step(s, op), owned, DoubtAfter(s, op, d))
  {
    var t, after := Step(s, op), DoubtAfter(s, op, d);
    match op {
      case SetDirect(name, value) =>
        ReadAfterWrite(s.table, vs, s.memory, name, value, name);
        assert Tiles(t.table, vs, t.memory);
        forall n | n in owned ensures CoherentAt(t, after, n) {
          assert CoherentAt(s, d, n);
          ReadAfterWrite(s.table, vs, s.memory, name, value, n);
        }
      case Sync(order) =>
        var reached := order[..Reach(s, order)];
        SyncEffect(s, vs, reached, "");
        assert Tiles(t.table, vs, t.memory);
        forall n | n in owned ensures CoherentAt(t, after, n) {
          assert CoherentAt(s, d, n);
          SyncEffect(s, vs, reached, n);
        }
      case Describe(table, memory) =>
        var us :| Tiles(table, us, memory);
        forall n | n in owned ensures CoherentAt(t, after, n) {
          assert CoherentAt(s, d, n);
          if n in table { PlaceOf(table, us, memory, n); }
        }
      case _ =>
        assert Tiles(t.table, vs, t.memory);
        forall n | n in owned ensures CoherentAt(t, after, n) {
          assert CoherentAt(s, d, n);
        }
    }
  }

  function Run(s: State, ops: seq<Op>): State {
    if ops == [] then s else Step(Run(s, ops[..|ops| - 1]), ops[|ops| - 1])
  }

  function DoubtOf(s: State, ops: seq<Op>): Doubt {
    if ops == [] then NO_DOUBT
    else
      var n := |ops| - 1;
      DoubtAfter(Run(s, ops[..n]), ops[n], DoubtOf(s, ops[..n]))
  }

  ghost predicate FaithfulRun(s: State, owned: set<string>, ops: seq<Op>) {
    forall k :: 0 <= k < |ops| ==> Faithful(Run(s, ops[..k]), owned, ops[k])
  }

  /** A node object that has been connected: no values yet, nothing remembered, nothing pending. */
  function Connected(m: VariablesMap, memory: seq<int>): State {
    State(memory, m, Blank(m), map[], map[])
  }

  /** Every run of updates, reads, cached and direct writes, events, syncs and scripts loaded: the remembered value of
      an owned variable is the remote one, unless it has been written directly since or has another value in the
      node as described now; after a request without an answer it is the empty list. */
  lemma {:induction false} CoherentRun(
    m: VariablesMap, vs: seq<Variable>, memory: seq<int>, owned: set<string>, ops: seq<Op>)
    requires Tiles(m, vs, memory) && FaithfulRun(Connected(m, memory), owned, ops)
    ensures var s := Run(Connected(m, memory), ops);
            Tiled(s) && PendingFit(s) && Coherent(s, owned, DoubtOf(Connected(m, memory), ops))
  {
    var s0 := Connected(m, memory);
    if ops == [] {
      assert Tiles(s0.table, vs, s0.memory);
    } else {
      var n := |ops| - 1;
      forall k | 0 <= k < n ensures Faithful(Run(s0, ops[..n][..k]), owned, ops[..n][k]) {
        assert ops[..n][..k] == ops[..k];
      }
      CoherentRun(m, vs, memory, owned, ops[..n]);
      var s := Run(s0, ops[..n]);
      var us :| Tiles(s.table, us, s.memory);
      CoherentStep(s, us, owned, DoubtOf(s0, ops[..n]), ops[n]);
    }
  }

  /** No direct write, every request answered, and no remembered name given another value by a script. */
  ghost predicate Quiet(s: State, op: Op) {
    && !op.SetDirect? && (op.Get? ==> op.answered)
    && (op.Describe? ==> Moved(s, op.table, op.memory) == {})
  }

  ghost predicate QuietRun(s: State, ops: seq<Op>) {
    forall k :: 0 <= k < |ops| ==> Quiet(Run(s, ops[..k]), ops[k])
  }

  lemma QuietStep(s: State, op: Op)
    requires Quiet(s, op)
    ensures DoubtAfter(s, op, NO_DOUBT) == NO_DOUBT
  {
  }

  lemma {:induction false} NoDoubt(s: State, ops: seq<Op>)
    requires QuietRun(s, ops)
    ensures DoubtOf(s, ops) == NO_DOUBT
  {
    if ops != [] {
      var n := |ops| - 1;
      assert QuietRun(s, ops[..n]) by { assert forall k :: 0 <= k < n ==> ops[..n][..k] == ops[..k]; }
      NoDoubt(s, ops[..n]);
      QuietStep(Run(s, ops[..n]), ops[n]);
    }
  }

  /** Then every remembered value of an owned variable is the remote one. */
  lemma {:induction false} RememberedIsRemote(
    m: VariablesMap, vs: seq<Variable>, memory: seq<int>, owned: set<string>, ops: seq<Op>, name: string)
    requires Tiles(m, vs, memory) && FaithfulRun(Connected(m, memory), owned, ops)
             && QuietRun(Connected(m, memory), ops)
    ensures var s := Run(Connected(m, memory), ops);
            name in s.table && name in owned && name in s.prev ==> s.prev[name] == Read(s.memory, s.table, name)
  {
    CoherentRun(m, vs, memory, owned, ops);
    NoDoubt(Connected(m, memory), ops);
    if name in owned { assert CoherentAt(Run(Connected(m, memory), ops), NO_DOUBT, name); }
  }

  /** After any such run `sync` goes through its variables up to the first value that the bindings refuse. Of
      those gone through, every pending one ends up with its value on the node, unless its remembered value is in
      doubt; no other variable changes. If none is refused nothing stays pending, otherwise everything does. */
  lemma {:induction false} SyncDelivers(
    m: VariablesMap, vs: seq<Variable>, memory: seq<int>, owned: set<string>, ops: seq<Op>, order: seq<string>,
    name: string)
    requires Tiles(m, vs, memory) && FaithfulRun(Connected(m, memory), owned, ops) && NoRepeat(order)
    requires name in Run(Connected(m, memory), ops).table
    ensures var s := Run(Connected(m, memory), ops); var t := Step(s, Sync(order));
            var d, gone := DoubtOf(Connected(m, memory), ops), order[..Reach(s, order)];
            && (name in gone && name in s.next && name in owned && (name !in d.stale || name in d.unanswered) ==>
                  Read(t.memory, t.table, name) == s.next[name])
            && (!(name in gone && name in s.next) ==> Read(t.memory, t.table, name) == Read(s.memory, s.table, name))
            && t.next == if exists k :: 0 <= k < |order| && Blocks(s, order[k]) then s.next else map[]
  {
    CoherentRun(m, vs, memory, owned, ops);
    CoherentSync(Run(Connected(m, memory), ops), owned, DoubtOf(Connected(m, memory), ops), order, name);
  }

  lemma {:induction false} CoherentSync(s: State, owned: set<string>, d: Doubt, order: seq<string>, name: string)
    requires Tiled(s) && PendingFit(s) && Coherent(s, owned, d) && NoRepeat(order) && name in s.table
    ensures var t, gone := Step(s, Sync(order)), order[..Reach(s, order)];
            && (name in gone && name in s.next && name in owned && (name !in d.stale || name in d.unanswered) ==>
                  Read(t.memory, t.table, name) == s.next[name])
            && (!(name in gone && name in s.next) ==> Read(t.memory, t.table, name) == Read(s.memory, s.table, name))
            && t.next == if exists k :: 0 <= k < |order| && Blocks(s, order[k]) then s.next else map[]
  {
    var vs :| Tiles(s.table, vs, s.memory);
    var reached := order[..Reach(s, order)];
    SyncEffect(s, vs, reached, name);
    SyncEffect(s, vs, reached, "");
    assert Step(s, Sync(order)).memory == SyncAlong(s, reached).memory;
    PlaceOf(s.table, vs, s.memory, name);
    assert Read(s.memory, s.table, name) != [];
    if name in owned { assert CoherentAt(s, d, name); }
  }

  /** In any state whatever, if nothing is refused: a pending sync variable is delivered unless it equals a
      remembered value that is not the remote one. */
  lemma {:induction false} SyncDeliversIff(s: State, order: seq<string>, sync: set<string>, name: string)
    requires Tiled(s) && PendingFit(s) && Lists(order, sync) && name in sync && name in s.table && name in s.next
    requires forall other :: other in sync ==> !Blocks(s, other)
    ensures Read(Step(s, Sync(order)).memory, s.table, name) == s.next[name]
            <==> !(name in s.prev && s.prev[name] == s.next[name] && Read(s.memory, s.table, name) != s.prev[name])
  {
    var vs :| Tiles(s.table, vs, s.memory);
    assert order[..Reach(s, order)] == order;
    SyncEffect(s, vs, order, name);
  }

  /** A direct write loses a later cached write of the value remembered before it: the node keeps the value
      written directly. */
  lemma {:induction false} DirectWriteLosesCachedWrite(s: State, name: string, direct: seq<int>, order: seq<string>)
    requires Tiled(s) && PendingFit(s) && name in s.table && name in s.prev
    requires Fits(s.table, name, direct) && AllInt16(direct) && Fits(s.table, name, s.prev[name]) && NoRepeat(order)
    ensures var written := Step(s, SetDirect(name, direct));
            var pending := Step(written, SetCached(name, s.prev[name]));
            Read(Step(pending, Sync(order)).memory, s.table, name) == direct
  {
    var vs :| Tiles(s.table, vs, s.memory);
    var written := Step(s, SetDirect(name, direct));
    WholeValue(s.table, vs, s.memory, name, direct, name);
    assert Tiles(written.table, vs, written.memory);
    RememberedIsNotSent(written, vs, order, name);
  }

  lemma {:induction false} RememberedIsNotSent(s: State, vs: seq<Variable>, order: seq<string>, name: string)
    requires Tiles(s.table, vs, s.memory) && PendingFit(s) && name in s.prev && Fits(s.table, name, s.prev[name])
    ensures var pending := Step(s, SetCached(name, s.prev[name]));
            Read(Step(pending, Sync(order)).memory, s.table, name) == Read(s.memory, s.table, name)
  {
    var pending := Step(s, SetCached(name, s.prev[name]));
    SyncEffect(pending, vs, order[..Reach(pending, order)], name);
  }
}
