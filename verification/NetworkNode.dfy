/** The simulated node of src/network/node.h and the description of itself that it publishes
    (src/network/description.h): variables, events and functions. */
module NetworkNode {
  import opened Layout
  import opened Int16Cells
  import opened FlatMemory
  import opened Options

  const VARIABLES_TOTAL_SIZE := 1024

  const DEFAULT_VARIABLES := [Variable("id", 1), Variable("source", 1), Variable("args", 32), Variable("_productId", 1)]

  /** named: where the node has put its variables. next: the first free cell. published: the variables in
      the order of the description. mapped: the other table that the description keeps. */
  datatype Allocation = Allocation(
    named: VariablesMap, next: nat, published: seq<Variable>, mapped: VariablesMap, mappedSize: nat)

  function Constructed(defaults: seq<Variable>): Allocation {
    Allocation(map[], 0, defaults, VariablesMapOf(defaults), TotalSize(defaults))
  }

  function Emplace(m: VariablesMap, name: string, place: Place): VariablesMap {
    if name in m then m else m[name := place]
  }

  function InitUpTo(a: Allocation, k: nat): Allocation
    requires k <= |a.published|
  {
    if k == 0 then a
    else
      var b, v := InitUpTo(a, k - 1), a.published[k - 1];
      b.(named := Emplace(b.named, v.name, Place(b.next, v.size)), next := b.next + v.size)
  }

  function Allocate(a: Allocation): Allocation {
    InitUpTo(a, |a.published|)
  }

  predicate Accepted(a: Allocation, v: Variable) {
    v.name !in a.named && a.next + v.size <= VARIABLES_TOTAL_SIZE
  }

  /** The entry made in the description's table is not the address but the end of the variable. */
  function AddTo(a: Allocation, v: Variable): Allocation {
    if Accepted(a, v) then
      Allocation(
        a.named[v.name := Place(a.next, v.size)], a.next + v.size, a.published + [v],
        a.mapped[v.name := Place(a.mappedSize + v.size, v.size)], a.mappedSize + v.size)
    else a
  }

  function AddAll(a: Allocation, vs: seq<Variable>): Allocation {
    if vs == [] then a else AddTo(AddAll(a, vs[..|vs| - 1]), vs[|vs| - 1])
  }

  datatype EventTable = EventTable(named: map<string, nat>, published: seq<string>)

  function AddEventTo(t: EventTable, name: string): EventTable {
    if name in t.named then t else EventTable(t.named[name := |t.named| % 65536], t.published + [name])
  }

  datatype Extra = Extra(name: string, sizes: seq<nat>, inputs: nat)

  predicate Has(extras: seq<Extra>, name: string) {
    exists k :: 0 <= k < |extras| && extras[k].name == name
  }

  /** The functions the node can call, and the names it has published. */
  datatype FunctionTable = FunctionTable(natives: seq<string>, extras: seq<Extra>, published: seq<string>)

  function AddFunctionTo(t: FunctionTable, f: Extra): FunctionTable {
    if Has(t.extras, f.name) then t else FunctionTable(t.natives, t.extras + [f], t.published + [f.name])
  }

  /** Which function an id calls. */
  function Dispatch(t: FunctionTable, id: nat): Option<string> {
    if id < |t.natives| then Some(t.natives[id])
    else if id - |t.natives| < |t.extras| then Some(t.extras[id - |t.natives|].name)
    else None
  }

  function Get(cells: seq<int>, named: VariablesMap, name: string): seq<int> {
    if name in named && named[name].index + named[name].size <= |cells|
    then cells[named[name].index..named[name].index + named[name].size] else []
  }

  /** Copying stops at the end of the variable, or of the value. */
  function Put(cells: seq<int>, named: VariablesMap, name: string, value: seq<int>): seq<int> {
    if name in named then Overwrite(cells, named[name].index, WrapAll(value[..Shorter(|value|, named[name].size)]))
      else cells
  }

  /** The arguments a function is passed: the cells at the addresses popped, in order, as many as it takes. */
  function Inputs(cells: seq<int>, addresses: seq<nat>, f: Extra, k: nat): seq<seq<int>>
    requires k <= |f.sizes| <= |addresses| && Fit(cells, addresses, f)
  {
    if k == 0 then []
    else Inputs(cells, addresses, f, k - 1) +
         if k - 1 < f.inputs then [cells[addresses[k - 1]..addresses[k - 1] + f.sizes[k - 1]]] else []
  }

  ghost predicate Fit(cells: seq<int>, addresses: seq<nat>, f: Extra)
    requires |f.sizes| <= |addresses|
  {
    forall k :: 0 <= k < |f.sizes| ==> addresses[k] + f.sizes[k] <= |cells|
  }

  /** What the Python method returns. */
  datatype Answer = Nothing | Tuple(results: seq<seq<int>>) | List(values: seq<int>) | Number(value: int) | Other

  /** The results it stands for; none if the bindings refuse to convert it, and raise. */
  function Converted(a: Answer): (r: Option<seq<seq<int>>>)
    ensures r.Some? ==> forall i :: 0 <= i < |r.value| ==> AllInt16(r.value[i])
  {
    match a
    case Tuple(rs) => if forall i :: 0 <= i < |rs| ==> AllInt16(rs[i]) then Some(rs) else None
    case List(xs) => if AllInt16(xs) then Some([xs]) else None
    case Number(x) => if IsInt16(x) then Some([[x]]) else None
    case _ => Some([])
  }

  /** Results are written to the arguments from the last one backwards. */
  ghost predicate LongEnough(results: seq<seq<int>>, sizes: seq<nat>) {
    forall i :: 0 <= i < |sizes| && i < |results| ==> |results[i]| >= sizes[|sizes| - 1 - i]
  }

  function WriteBack(cells: seq<int>, addresses: seq<nat>, sizes: seq<nat>, results: seq<seq<int>>,
      n: nat): (r: seq<int>)
    requires n <= |sizes| <= |addresses| && n <= |results| && LongEnough(results, sizes)
    ensures |r| == |cells|
  {
    if n == 0 then cells
    else
      var k := |sizes| - n;
      Overwrite(WriteBack(cells, addresses, sizes, results, n - 1), addresses[k], results[n - 1][..sizes[k]])
  }

  class Node {
    const nodeId: nat
    const natives: seq<string>
    const variables: array<int>
    var initialized: bool
    var namedVariable: VariablesMap
    var nextVariable: nat
    var published: seq<Variable>
    var mapped: VariablesMap
    var mappedSize: nat
    /** The description once it has been asked for. */
    var description: Option<seq<Variable>>
    var namedEvent: map<string, nat>
    var events: seq<string>
    var functions: seq<Extra>
    var publishedFunctions: seq<string>

    function Allocated(): Allocation
      reads this
    {
      Allocation(namedVariable, nextVariable, published, mapped, mappedSize)
    }

    function Events(): EventTable
      reads this
    {
      EventTable(namedEvent, events)
    }

    function Functions(): FunctionTable
      reads this
    {
      FunctionTable(natives, functions, publishedFunctions)
    }

    ghost predicate Valid()
      reads this
    {
      variables.Length == VARIABLES_TOTAL_SIZE
    }

    /** The standard functions are passed in: none of them, if default functions are not wanted. */
    constructor (id: nat, defaultVariables: bool, standard: seq<string>)
      ensures Valid()
      ensures fresh(variables)
      ensures nodeId == id
      ensures natives == standard
      ensures Allocated() == Constructed(if defaultVariables then DEFAULT_VARIABLES else [])
      ensures !initialized
      ensures description == None
      ensures variables[0] == Wrap(id)
      ensures Events() == EventTable(map[], [])
      ensures Functions() == FunctionTable(standard, [], standard)
    {
      nodeId, natives, initialized := id, standard, false;
      namedVariable, nextVariable, mapped, mappedSize := map[], 0, map[], 0;
      published := if defaultVariables then DEFAULT_VARIABLES else [];
      description, namedEvent, events := None, map[], [];
      functions, publishedFunctions := [], standard;
      variables := new int[VARIABLES_TOTAL_SIZE];
      new;
      variables[0] := Wrap(id);
      for k := 0 to |published|
        invariant variables[0] == Wrap(id) && !initialized && description == None
        invariant Events() == EventTable(map[], []) && Functions() == FunctionTable(standard, [], standard)
        invariant published == if defaultVariables then DEFAULT_VARIABLES else []
        invariant Allocated() == Allocation(map[], 0, published, TableUpTo(published, k), Offset(published, k))
      {
        mapped := mapped[published[k].name := Place(mappedSize, published[k].size)];
        mappedSize := mappedSize + published[k].size;
      }
    }

    method Init()
      modifies this`initialized, this`namedVariable, this`nextVariable
      ensures initialized
      ensures Allocated() == if old(initialized) then old(Allocated()) else Allocate(old(Allocated()))
    {
      if initialized {
        return;
      }
      initialized := true;
      for k := 0 to |published|
        invariant initialized && Allocated() == InitUpTo(old(Allocated()), k)
      {
        var v := published[k];
        if v.name !in namedVariable {
          namedVariable := namedVariable[v.name := Place(nextVariable, v.size)];
        }
        nextVariable := nextVariable + v.size;
      }
    }

    method AddVariable(name: string, size: nat)
      modifies this`namedVariable, this`nextVariable, this`published, this`mapped, this`mappedSize
      ensures Allocated() == AddTo(old(Allocated()), Variable(name, size))
    {
      if name in namedVariable {
        return;
      }
      if nextVariable + size > VARIABLES_TOTAL_SIZE {
        return;
      }
      namedVariable := namedVariable[name := Place(nextVariable, size)];
      nextVariable := nextVariable + size;
      mappedSize := mappedSize + size;
      mapped := mapped[name := Place(mappedSize, size)];
      published := published + [Variable(name, size)];
    }

    /** The description is made once: variables added later are not in it. */
    method GetDescription() returns (d: seq<Variable>)
      modifies this`description
      ensures description == Some(d)
      ensures d == if old(description).Some? then old(description).value else published
    {
      if description == None {
        description := Some(published);
      }
      d := description.value;
    }

    method GetVariable(name: string) returns (value: seq<int>)
      requires Valid()
      requires name in namedVariable ==> namedVariable[name].index + namedVariable[name].size <= VARIABLES_TOTAL_SIZE
      ensures value == Get(variables[..], namedVariable, name)
    {
      if name !in namedVariable {
        return [];
      }
      var place := namedVariable[name];
      value := variables[place.index..place.index + place.size];
    }

    method GetVariables() returns (vs: map<string, seq<int>>)
      requires Valid()
      requires forall n :: n in namedVariable ==> namedVariable[n].index + namedVariable[n].size <= VARIABLES_TOTAL_SIZE
      ensures vs.Keys == namedVariable.Keys
      ensures forall n :: n in vs ==> vs[n] == Get(variables[..], namedVariable, n)
    {
      vs := map[];
      var done: set<string> := {};
      while namedVariable.Keys - done != {}
        invariant done <= namedVariable.Keys && vs.Keys == done
        invariant forall n :: n in vs ==> vs[n] == Get(variables[..], namedVariable, n)
        decreases namedVariable.Keys - done
      {
        var name :| name in namedVariable.Keys - done;
        var place := namedVariable[name];
        vs := vs[name := variables[place.index..place.index + place.size]];
        done := done + {name};
      }
      forall n | n in namedVariable.Keys ensures n in done { assert n !in namedVariable.Keys - done; }
    }

    method SetVariable(name: string, value: seq<int>)
      requires Valid()
      requires name in namedVariable ==> namedVariable[name].index + namedVariable[name].size <= VARIABLES_TOTAL_SIZE
      modifies variables
      ensures variables[..] == Put(old(variables[..]), namedVariable, name, value)
    {
      if name !in namedVariable {
        return;
      }
      var place := namedVariable[name];
      var size := if |value| < place.size then |value| else place.size;
      Copy(place.index, value[..size]);
    }

    /** std::copy into the cells from an address on. */
    method Copy(address: nat, values: seq<int>)
      requires Valid() && address + |values| <= VARIABLES_TOTAL_SIZE
      modifies variables
      ensures variables[..] == Overwrite(old(variables[..]), address, WrapAll(values))
    {
      for k := 0 to |values|
        invariant forall c :: 0 <= c < VARIABLES_TOTAL_SIZE ==>
                    variables[c] == if address <= c < address + k then Wrap(values[c - address]) else old(variables[c])
      {
        variables[address + k] := Wrap(values[k]);
      }
    }

    method AddEvent(name: string)
      modifies this`namedEvent, this`events
      ensures Events() == AddEventTo(old(Events()), name)
    {
      if name in namedEvent {
        return;
      }
      namedEvent := namedEvent[name := |namedEvent| % 65536];
      events := events + [name];
    }

    method AddFunction(name: string, arguments: seq<Variable>, inputs: nat)
      modifies this`functions, this`publishedFunctions
      ensures Functions() == AddFunctionTo(old(Functions()), Extra(name, SizesOf(arguments), inputs))
    {
      for k := 0 to |functions|
        invariant forall j :: 0 <= j < k ==> functions[j].name != name
      {
        if functions[k].name == name {
          return;
        }
      }
      var sizes := [];
      for k := 0 to |arguments|
        invariant sizes == SizesOf(arguments)[..k]
      {
        sizes := sizes + [arguments[k].size];
      }
      assert SizesOf(arguments)[..|arguments|] == SizesOf(arguments);
      publishedFunctions := publishedFunctions + [name];
      functions := functions + [Extra(name, sizes, inputs)];
    }

    /** Which function is called: a standard one, an extra one, or none. */
    method CallFunction(id: nat) returns (called: Option<string>)
      ensures called == Dispatch(Functions(), id)
    {
      if id < |natives| {
        return Some(natives[id]);
      }
      called := if id - |natives| < |functions| then Some(functions[id - |natives|].name) else None;
    }

    /** An extra function: its arguments are popped, it is called, its results are written back. The
        addresses come from the virtual machine, the answer from the Python method. An answer that cannot be
        converted is refused as a whole. */
    method CallExtraFunction(id: nat, addresses: seq<nat>, call: seq<seq<int>> -> Answer) returns (ok: bool)
      requires Valid()
      requires id < |functions| ==>
                 |functions[id].sizes| <= |addresses| && Fit(variables[..], addresses, functions[id]) &&
                 var results := Converted(call(Inputs(variables[..], addresses, functions[id], |functions[id].sizes|)));
                 (results.Some? ==> LongEnough(results.value, functions[id].sizes))
      modifies variables
      ensures id >= |functions| ==> ok && variables[..] == old(variables[..])
      ensures id < |functions| ==>
                var f := functions[id];
                var results := Converted(call(Inputs(old(variables[..]), addresses, f, |f.sizes|)));
                && (ok <==> results.Some?)
                && variables[..] == if ok
                                    then WriteBack(old(variables[..]), addresses, f.sizes, results.value,
                                      Shorter(|f.sizes|, |results.value|))
                                    else old(variables[..])
    {
      ok := true;
      if id >= |functions| {
        return;
      }
      var f := functions[id];
      var arguments := [];
      for i := 0 to |f.sizes|
        invariant arguments == Inputs(variables[..], addresses, f, i)
      {
        if i < f.inputs {
          arguments := arguments + [variables[addresses[i]..addresses[i] + f.sizes[i]]];
        }
      }
      var results := Converted(call(arguments));
      if results.None? {
        return false;
      }
      StoreResults(f, addresses[..|f.sizes|], results.value);
      WriteBackPrefix(old(variables[..]), addresses, f.sizes, results.value, Shorter(|f.sizes|, |results.value|));
    }

    /** The addresses have been stacked: the last one is on top. */
    method StoreResults(f: Extra, stack: seq<nat>, results: seq<seq<int>>)
      requires Valid() && |stack| == |f.sizes| && LongEnough(results, f.sizes) && Fit(variables[..], stack, f)
      requires forall i :: 0 <= i < |results| ==> AllInt16(results[i])
      modifies variables
      ensures variables[..] == WriteBack(old(variables[..]), stack, f.sizes, results, Shorter(|f.sizes|, |results|))
    {
      var addresses := stack;
      var num := if |f.sizes| < |results| then |f.sizes| else |results|;
      for i := 0 to num
        invariant addresses == stack[..|stack| - i]
        invariant variables[..] == WriteBack(old(variables[..]), stack, f.sizes, results, i)
      {
        var size := f.sizes[|f.sizes| - i - 1];
        var address := addresses[|addresses| - 1];
        addresses := addresses[..|addresses| - 1];
        assert AllInt16(results[i]);
        WrapAllIsExact(results[i][..size]);
        Copy(address, results[i][..size]);
      }
    }

    method Reset()
      requires Valid()
      modifies variables
      ensures variables[0] == Wrap(nodeId) && forall c :: 0 < c < VARIABLES_TOTAL_SIZE ==> variables[c] == 0
    {
      for c := 0 to VARIABLES_TOTAL_SIZE
        invariant forall d :: 0 <= d < c ==> variables[d] == 0
      {
        variables[c] := 0;
      }
      variables[0] := Wrap(nodeId);
    }
  }

  function SizesOf(arguments: seq<Variable>): (r: seq<nat>)
    ensures |r| == |arguments| && forall k :: 0 <= k < |arguments| ==> r[k] == arguments[k].size
  {
    seq(|arguments|, k requires 0 <= k < |arguments| => arguments[k].size)
  }

  lemma {:induction false} WriteBackPrefix(cells: seq<int>, addresses: seq<nat>, sizes: seq<nat>,
      results: seq<seq<int>>, n: nat)
    requires n <= |sizes| <= |addresses| && n <= |results| && LongEnough(results, sizes)
    ensures WriteBack(cells, addresses[..|sizes|], sizes, results, n) == WriteBack(cells, addresses, sizes, results, n)
  {
    if n > 0 { WriteBackPrefix(cells, addresses, sizes, results, n - 1); }
  }

  // ---------------------------------------------------------------- addresses

  /** The addresses are the prefix sums of the published sizes, within the memory. */
  ghost predicate Agrees(a: Allocation) {
    && DistinctNames(a.published)
    && TotalSize(a.published) <= VARIABLES_TOTAL_SIZE
    && (a.named, a.next) == (VariablesMapOf(a.published), TotalSize(a.published))
  }

  lemma {:induction false} AddKeepsAgreement(a: Allocation, v: Variable)
    requires Agrees(a)
    ensures Agrees(AddTo(a, v))
  {
    TableSnoc(a.published, v);
    if Accepted(a, v) {
      forall j, k | 0 <= j < k < |a.published| + 1 ensures (a.published + [v])[j].name != (a.published + [v])[k].name {
        TableNames(a.published, |a.published|, v.name);
      }
    }
  }

  /** Whatever is added after an agreement, accepted or rejected: the addresses still agree, and no variable
      that was there before has moved. */
  lemma {:induction false} AdditionsKeepAgreement(a: Allocation, vs: seq<Variable>, name: string)
    requires Agrees(a)
    ensures Agrees(AddAll(a, vs))
    ensures a.published <= AddAll(a, vs).published
    ensures name in a.named ==> Lookup(AddAll(a, vs).named, name) == Some(a.named[name])
  {
    if vs != [] {
      AdditionsKeepAgreement(a, vs[..|vs| - 1], name);
      AddKeepsAgreement(AddAll(a, vs[..|vs| - 1]), vs[|vs| - 1]);
    }
  }

  ghost predicate IsPublished(a: Allocation, name: string) {
    exists k :: 0 <= k < |a.published| && a.published[k].name == name
  }

  /** A variable is accepted exactly if its name is new and the cells left are enough for it. */
  lemma {:induction false} AdditionIsPublishedIff(a: Allocation, vs: seq<Variable>, v: Variable)
    ensures Agrees(a) ==>
            var b := AddAll(a, vs);
            AddAll(a, vs + [v]).published == b.published +
              if !IsPublished(b, v.name) && TotalSize(b.published) + v.size <= 1024 then [v] else []
  {
    if Agrees(a) {
      AdditionsKeepAgreement(a, vs, "");
      var b := AddAll(a, vs);
      assert (vs + [v])[..|vs|] == vs;
      TableNames(b.published, |b.published|, v.name);
    }
  }

  /** Before the first init, variables are put at the front, behind the back of the default ones. */
  ghost predicate HasAdded(a: Allocation, defaults: seq<Variable>, added: seq<Variable>) {
    && DistinctNames(added) && TotalSize(added) <= VARIABLES_TOTAL_SIZE
    && (a.published, a.named, a.next) == (defaults + added, VariablesMapOf(added), TotalSize(added))
  }

  lemma {:induction false} AddedBeforeInit(defaults: seq<Variable>, vs: seq<Variable>)
    ensures exists added :: HasAdded(AddAll(Constructed(defaults), vs), defaults, added)
  {
    if vs == [] {
      assert defaults + [] == defaults;
      assert HasAdded(AddAll(Constructed(defaults), vs), defaults, []);
    } else {
      var a, v := AddAll(Constructed(defaults), vs[..|vs| - 1]), vs[|vs| - 1];
      AddedBeforeInit(defaults, vs[..|vs| - 1]);
      var added :| HasAdded(a, defaults, added);
      if Accepted(a, v) {
        AddKeepsAgreement(Allocation(a.named, a.next, added, map[], 0), v);
        TableSnoc(added, v);
        assert (defaults + added) + [v] == defaults + (added + [v]);
        assert HasAdded(AddAll(Constructed(defaults), vs), defaults, added + [v]);
      } else {
        assert HasAdded(AddAll(Constructed(defaults), vs), defaults, added);
      }
    }
  }

  lemma {:induction false} InitFromNothing(a: Allocation, k: nat)
    requires a.named == map[] && a.next == 0 && DistinctNames(a.published) && k <= |a.published|
    ensures var b := InitUpTo(a, k); b.named == TableUpTo(a.published, k) && b.next == Offset(a.published, k)
  {
    if k > 0 {
      InitFromNothing(a, k - 1);
      TableNames(a.published, k - 1, a.published[k - 1].name);
    }
  }

  /** init lays out the published variables, if nothing has been added, or else nothing with cells. */
  lemma {:induction false} InitAgrees(a: Allocation)
    requires DistinctNames(a.published) && TotalSize(a.published) <= VARIABLES_TOTAL_SIZE && a.next == 0
    requires a.named == map[] || (a.named == VariablesMapOf(a.published) && TotalSize(a.published) == 0)
    ensures Agrees(Allocate(a))
  {
    var n := |a.published|;
    InitMovesNothing(a, n, "");
    if a.named == map[] {
      InitFromNothing(a, n);
    } else {
      forall j | 0 <= j < n ensures a.published[j].name in a.named { TableIsPrefixSums(a.published, n, j); }
      InitOfKnown(a, n);
    }
  }

  lemma {:induction false} InitMovesNothing(a: Allocation, k: nat, name: string)
    requires k <= |a.published|
    ensures var b := InitUpTo(a, k);
            && b.published == a.published
            && b.next == a.next + Offset(a.published, k)
            && (name in a.named ==> name in b.named && b.named[name] == a.named[name])
  {
    if k > 0 { InitMovesNothing(a, k - 1, name); }
  }

  lemma {:induction false} InitOfKnown(a: Allocation, k: nat)
    requires k <= |a.published| && forall j :: 0 <= j < k ==> a.published[j].name in a.named
    ensures InitUpTo(a, k).named == a.named
  {
    if k > 0 { InitOfKnown(a, k - 1); }
  }

  /** init establishes the agreement exactly if nothing has been added before it; the only other case is that
      there are no default variables and the variables added have no cells. */
  lemma {:induction false} InitAgreesIff(defaultVariables: bool, vs: seq<Variable>)
    ensures var defaults := if defaultVariables then DEFAULT_VARIABLES else [];
            var a := AddAll(Constructed(defaults), vs);
            Agrees(Allocate(a)) <==> a.named == map[] || (!defaultVariables && a.next == 0)
  {
    var defaults := if defaultVariables then DEFAULT_VARIABLES else [];
    var a := AddAll(Constructed(defaults), vs);
    AddedBeforeInit(defaults, vs);
    var added :| HasAdded(a, defaults, added);
    DefaultsFit();
    if added == [] {
      assert a.published == defaults;
      InitAgrees(a);
    } else {
      TableIsPrefixSums(added, |added|, 0);
      LateInit(a, defaults, added);
      if !defaultVariables && a.next == 0 {
        assert a.published == added;
        InitAgrees(a);
      }
    }
  }

  /** A late init leaves the free space too far behind, or the variables that were there in the wrong place. */
  lemma {:induction false} LateInit(a: Allocation, defaults: seq<Variable>, added: seq<Variable>)
    requires a.published == defaults + added && a.named == VariablesMapOf(added) && a.next == TotalSize(added)
    requires DistinctNames(added) && added != []
    ensures Agrees(Allocate(a)) ==> TotalSize(added) + TotalSize(defaults) == 0
  {
    var n := |a.published|;
    OffsetAppend(defaults, added, |added|);
    OffsetAppend(defaults, added, 0);
    TableIsPrefixSums(added, |added|, 0);
    InitMovesNothing(a, n, added[0].name);
    assert a.published[|defaults|] == added[0];
    if Agrees(Allocate(a)) {
      TableIsPrefixSums(a.published, n, |defaults|);
    }
  }

  lemma {:induction false} DefaultsFit()
    ensures DistinctNames(DEFAULT_VARIABLES)
    ensures TotalSize(DEFAULT_VARIABLES) == 35
  {
    assert Offset(DEFAULT_VARIABLES, 1) == 1 && Offset(DEFAULT_VARIABLES, 2) == 2 && Offset(DEFAULT_VARIABLES, 3) == 34;
  }

  /** The table of the description: right for the default variables; for an added one it is right only if
      the variable has no cells. */
  lemma {:induction false} MappedIff(defaults: seq<Variable>, vs: seq<Variable>, k: nat)
    requires DistinctNames(defaults) && TotalSize(defaults) <= VARIABLES_TOTAL_SIZE
    requires k < |AddAll(Allocate(Constructed(defaults)), vs).published|
    ensures var a := AddAll(Allocate(Constructed(defaults)), vs);
            var v := a.published[k];
            && v.name in a.mapped && v.name in a.named
            && (a.mapped[v.name] == a.named[v.name] <==> k < |defaults| || v.size == 0)
  {
    MappedEntry(defaults, vs, k);
    var a := AddAll(Allocate(Constructed(defaults)), vs);
    TableIsPrefixSums(a.published, |a.published|, k);
  }

  lemma {:induction false} InitKeepsMapped(a: Allocation, k: nat)
    requires k <= |a.published|
    ensures InitUpTo(a, k).mapped == a.mapped
    ensures InitUpTo(a, k).mappedSize == a.mappedSize
  {
    if k > 0 { InitKeepsMapped(a, k - 1); }
  }

  /** The entries of the description's table, the first d of which are the default ones. */
  ghost predicate MappedIs(a: Allocation, d: nat, k: nat) {
    k < |a.published| ==>
      Lookup(a.mapped, a.published[k].name) ==
      Some(Place(Offset(a.published, if k < d then k else k + 1), a.published[k].size))
  }

  lemma {:induction false} MappedAdd(a: Allocation, d: nat, k: nat, v: Variable)
    requires Agrees(a) && a.mappedSize == a.next && MappedIs(a, d, k) && Accepted(a, v) && d <= |a.published|
    ensures MappedIs(AddTo(a, v), d, k)
    ensures AddTo(a, v).mappedSize == AddTo(a, v).next
  {
    TableSnoc(a.published, v);
    var more, n := a.published + [v], |a.published|;
    if k < n {
      assert more[..k] == a.published[..k] && more[..k + 1] == a.published[..k + 1];
      PrefixAgrees(more, a.published, k);
      PrefixAgrees(more, a.published, k + 1);
      TableIsPrefixSums(a.published, n, k);
    }
  }

  lemma {:induction false} MappedEntry(defaults: seq<Variable>, vs: seq<Variable>, k: nat)
    requires DistinctNames(defaults) && TotalSize(defaults) <= VARIABLES_TOTAL_SIZE
    ensures var a := AddAll(Allocate(Constructed(defaults)), vs);
            Agrees(a) && a.mappedSize == a.next && |defaults| <= |a.published| && MappedIs(a, |defaults|, k)
  {
    var b := Allocate(Constructed(defaults));
    InitAgrees(Constructed(defaults));
    InitMovesNothing(Constructed(defaults), |defaults|, "");
    InitKeepsMapped(Constructed(defaults), |defaults|);
    if vs == [] {
      if k < |defaults| { TableIsPrefixSums(defaults, |defaults|, k); }
    } else {
      var a, v := AddAll(b, vs[..|vs| - 1]), vs[|vs| - 1];
      MappedEntry(defaults, vs[..|vs| - 1], k);
      if Accepted(a, v) {
        AddKeepsAgreement(a, v);
        MappedAdd(a, |defaults|, k, v);
      }
    }
  }

  /** What a client makes of any part of the description sent to it: the node's own addresses. */
  lemma {:induction false} ClientAgrees(a: Allocation, sent: seq<Variable>, name: string)
    requires Agrees(a) && sent <= a.published && name in VariablesMapOf(sent)
    ensures Lookup(a.named, name) == Some(VariablesMapOf(sent)[name])
  {
    TableNames(sent, |sent|, name);
    var k: nat :| k < |sent| && sent[k].name == name;
    assert sent == a.published[..|sent|];
    assert forall j :: 0 <= j < |sent| ==> sent[j] == a.published[j];
    TableIsPrefixSums(sent, |sent|, k);
    TableIsPrefixSums(a.published, |a.published|, k);
    assert sent[..k] == a.published[..k];
    PrefixAgrees(sent, a.published, k);
  }

  // ---------------------------------------------------------------- the memory

  ghost predicate IsInside(a: Allocation, name: string, k: nat) {
    && k < |a.published| && a.published[k].name == name && name in a.named
    && a.named[name] == Place(Offset(a.published, k), a.published[k].size)
    && a.named[name].index + a.named[name].size <= VARIABLES_TOTAL_SIZE
  }

  lemma {:induction false} PlaceInside(a: Allocation, name: string)
    requires Agrees(a) && name in a.named
    ensures exists k: nat :: IsInside(a, name, k)
  {
    TableNames(a.published, |a.published|, name);
    var k: nat :| k < |a.published| && a.published[k].name == name;
    TableIsPrefixSums(a.published, |a.published|, k);
    OffsetBound(a.published, k);
    assert IsInside(a, name, k);
  }

  /** Setting a variable stores the value as far as it fits, keeps the rest, and changes no other variable. */
  lemma {:induction false} SetThenGet(a: Allocation, cells: seq<int>, name: string, value: seq<int>, other: string)
    requires Agrees(a) && |cells| == VARIABLES_TOTAL_SIZE && name in a.named
    ensures var n, before := Shorter(|value|, a.named[name].size), Get(cells, a.named, name);
            |before| == a.named[name].size &&
            Get(Put(cells, a.named, name, value), a.named, name) == WrapAll(value[..n]) + before[n..]
    ensures other != name ==> Get(Put(cells, a.named, name, value), a.named, other) == Get(cells, a.named, other)
  {
    PlaceInside(a, name);
    var k: nat :| IsInside(a, name, k);
    PutThenGet(cells, a.named, name, value);
    if other != name && other in a.named {
      PlaceInside(a, other);
      var j: nat :| IsInside(a, other, j);
      if j < k { DisjointVariables(a.published, j, k); } else { DisjointVariables(a.published, k, j); }
      PutElsewhere(cells, a.named, name, value, other);
    }
  }

  lemma {:induction false} PutThenGet(cells: seq<int>, named: VariablesMap, name: string, value: seq<int>)
    requires name in named && named[name].index + named[name].size <= |cells|
    ensures var n := Shorter(|value|, named[name].size);
            Get(Put(cells, named, name, value), named, name) == WrapAll(value[..n]) + Get(cells, named, name)[n..]
  {
    var place := named[name];
    var written := WrapAll(value[..Shorter(|value|, place.size)]);
    assert written[..|written|] == written;
    OverwrittenSlice(cells, place.index, place.size, written);
  }

  lemma {:induction false} PutElsewhere(cells: seq<int>, named: VariablesMap, name: string, value: seq<int>,
      other: string)
    requires name in named && other in named && named[other].index + named[other].size <= |cells|
    requires || named[other].index + named[other].size <= named[name].index
             || named[name].index + named[name].size <= named[other].index
    ensures Get(Put(cells, named, name, value), named, other) == Get(cells, named, other)
  {
    var written := WrapAll(value[..Shorter(|value|, named[name].size)]);
    UntouchedSlice(cells, named[name].index, written, named[other].index, named[other].size);
  }

  // ---------------------------------------------------------------- results of extra functions

  predicate In(c: int, address: nat, size: nat) {
    address <= c < address + size
  }

  /** A cell is written by the first of the arguments it belongs to, among those that get a result; a cell
      that belongs to none of them is left alone. Result i goes to the i-th argument from the end. */
  lemma {:induction false} ResultsReachArguments(
    cells: seq<int>, addresses: seq<nat>, sizes: seq<nat>, results: seq<seq<int>>, n: nat, c: nat, k: nat)
    requires n <= |sizes| <= |addresses| && n <= |results| && c < |cells|
    requires forall i :: 0 <= i < |sizes| && i < |results| ==> |results[i]| >= sizes[|sizes| - 1 - i]
    requires |sizes| - n <= k <= |sizes| && forall j :: |sizes| - n <= j < k ==> !In(c, addresses[j], sizes[j])
    requires k < |sizes| ==> In(c, addresses[k], sizes[k])
    ensures WriteBack(cells, addresses, sizes, results, n)[c] ==
            if k < |sizes| then results[|sizes| - 1 - k][c - addresses[k]] else cells[c]
  {
    if n > 0 && k > |sizes| - n {
      ResultsReachArguments(cells, addresses, sizes, results, n - 1, c, k);
    }
  }

  /** Arguments that are variables of the node lie within its memory. */
  lemma {:induction false} VariablesFit(
    a: Allocation, cells: seq<int>, f: Extra, names: seq<string>, addresses: seq<nat>)
    ensures Agrees(a) && |cells| == VARIABLES_TOTAL_SIZE && |f.sizes| == |names| == |addresses|
            && (forall k :: 0 <= k < |names| ==>
                  names[k] in a.named && a.named[names[k]] == Place(addresses[k], f.sizes[k])) ==>
            Fit(cells, addresses, f)
  {
    if Agrees(a) {
      forall name | name in a.named ensures a.named[name].index + a.named[name].size <= VARIABLES_TOTAL_SIZE {
        PlaceInside(a, name);
      }
    }
  }

  /** What a function is called with: the cells of its arguments, in order, as many as it takes. */
  lemma {:induction false} InputsAre(cells: seq<int>, addresses: seq<nat>, f: Extra, k: nat)
    requires k <= |f.sizes| <= |addresses| && Fit(cells, addresses, f)
    ensures var xs := Inputs(cells, addresses, f, k);
            |xs| == Shorter(k, f.inputs) &&
            forall i :: 0 <= i < |xs| ==> xs[i] == cells[addresses[i]..addresses[i] + f.sizes[i]]
  {
    if k > 0 { InputsAre(cells, addresses, f, k - 1); }
  }

  /** A tuple is the results, a list the only one, a number the only cell of the only one; any other answer, None
      among them, has no results. */
  ghost predicate StandsFor(a: Answer, results: seq<seq<int>>) {
    && (a.Tuple? ==> results == a.results)
    && (a.List? ==> results == [a.values])
    && (a.Number? ==> results == [[a.value]])
    && (a.Nothing? || a.Other? ==> results == [])
  }

  /** Results are taken for what they stand for exactly if every number of them is an int16. */
  lemma {:induction false} ConvertedIff(a: Answer, results: seq<seq<int>>)
    ensures Converted(a) == Some(results) <==>
            StandsFor(a, results) && forall i :: 0 <= i < |results| ==> AllInt16(results[i])
  {
    if a.List? && results == [a.values] { assert results[0] == a.values; }
    if a.Number? && results == [[a.value]] { assert results[0] == [a.value] && results[0][0] == a.value; }
  }

  // ---------------------------------------------------------------- events and functions

  function AddEvents(t: EventTable, names: seq<string>): EventTable {
    if names == [] then t else AddEventTo(AddEvents(t, names[..|names| - 1]), names[|names| - 1])
  }

  function AddFunctions(t: FunctionTable, fs: seq<Extra>): FunctionTable {
    if fs == [] then t else AddFunctionTo(AddFunctions(t, fs[..|fs| - 1]), fs[|fs| - 1])
  }

  ghost predicate Numbered(t: EventTable) {
    && |t.named| == |t.published|
    && (forall k :: 0 <= k < |t.published| ==> t.published[k] in t.named && t.named[t.published[k]] == k % 65536)
    && (forall name :: name in t.named ==> name in t.published)
    && (forall j, k :: 0 <= j < k < |t.published| ==> t.published[j] != t.published[k])
  }

  /** The names, each where it comes first. */
  function Firsts(names: seq<string>): seq<string> {
    if names == [] then []
    else
      var before, name := names[..|names| - 1], names[|names| - 1];
      Firsts(before) + if name in before then [] else [name]
  }

  /** Every event added is published, once. */
  lemma {:induction false} EventsArePublished(names: seq<string>)
    ensures AddEvents(EventTable(map[], []), names).published == Firsts(names)
  {
    if names != [] {
      EventsArePublished(names[..|names| - 1]);
      EventIsKnownIff(names[..|names| - 1], names[|names| - 1]);
    }
  }

  lemma {:induction false} EventIsKnownIff(names: seq<string>, name: string)
    ensures name in AddEvents(EventTable(map[], []), names).named <==> name in names
  {
    if names != [] {
      EventIsKnownIff(names[..|names| - 1], name);
      assert names == names[..|names| - 1] + [names[|names| - 1]];
    }
  }

  function NamesOf(fs: seq<Extra>): (r: seq<string>)
    ensures |r| == |fs|
    ensures forall k :: 0 <= k < |fs| ==> r[k] == fs[k].name
  {
    seq(|fs|, k requires 0 <= k < |fs| => fs[k].name)
  }

  /** The functions, each where its name comes first. */
  function FirstFunctions(fs: seq<Extra>): seq<Extra> {
    if fs == [] then []
    else
      var before, f := fs[..|fs| - 1], fs[|fs| - 1];
      FirstFunctions(before) + if f.name in NamesOf(before) then [] else [f]
  }

  /** Every function added can be called and is published, once, as it was added first. */
  lemma {:induction false} FunctionsArePublished(standard: seq<string>, fs: seq<Extra>)
    ensures AddFunctions(FunctionTable(standard, [], standard), fs) ==
            FunctionTable(standard, FirstFunctions(fs), standard + NamesOf(FirstFunctions(fs)))
  {
    if fs == [] {
      assert standard + NamesOf([]) == standard;
    } else {
      var before, f := fs[..|fs| - 1], fs[|fs| - 1];
      FunctionsArePublished(standard, before);
      FirstHasIff(before, f.name);
      var firsts := FirstFunctions(before);
      assert firsts + [] == firsts;
      assert standard + NamesOf(firsts + [f]) == standard + NamesOf(firsts) + [f.name];
    }
  }

  lemma {:induction false} FirstHasIff(fs: seq<Extra>, name: string)
    ensures Has(FirstFunctions(fs), name) <==> name in NamesOf(fs)
  {
    if fs != [] {
      var before, f := fs[..|fs| - 1], fs[|fs| - 1];
      FirstHasIff(before, name);
      assert NamesOf(fs) == NamesOf(before) + [f.name];
      var firsts := FirstFunctions(before);
      assert firsts + [] == firsts;
      if k :| 0 <= k < |firsts| && firsts[k].name == name { assert (firsts + [f])[k].name == name; }
      if f.name == name && name !in NamesOf(before) { assert (firsts + [f])[|firsts|].name == name; }
    }
  }

  /** The event numbered k is the k-th published one, whatever has been added, twice or not. */
  lemma {:induction false} EventsAreNumbered(names: seq<string>)
    ensures Numbered(AddEvents(EventTable(map[], []), names))
  {
    if names != [] {
      EventsAreNumbered(names[..|names| - 1]);
    }
  }

  /** Whatever has been added, twice or not: an id calls the function published under that id. */
  lemma {:induction false} DispatchIsAligned(standard: seq<string>, fs: seq<Extra>, id: nat)
    ensures var t := AddFunctions(FunctionTable(standard, [], standard), fs);
            && t.natives == standard
            && |t.published| == |standard| + |t.extras|
            && Dispatch(t, id) == if id < |t.published| then Some(t.published[id]) else None
  {
    if fs != [] { DispatchIsAligned(standard, fs[..|fs| - 1], id); }
  }
}
